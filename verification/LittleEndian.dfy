/** Reading and writing 32-byte little-endian numbers bit by bit and limb by limb. */
module LittleEndian {
  import opened MachineInts
  import opened Radix
  import opened X25519
  import opened JavaLimbs
  import opened JavaField
  import opened LittleEndianBits
  import opened Words

  /** The bit patterns of signed bytes. */
  ghost function SignedOctets(s: seq<int8>): (r: Bytes)
    ensures |r| == |s| && forall i :: 0 <= i < |s| ==> r[i] == s[i] as int % 256
  {
    seq(|s|, i requires 0 <= i < |s| => s[i] as int % 256)
  }

  /** `(v >> n) & 1` */
  function BitOf(v: int32, n: nat): (r: int32)
    ensures r == 0 || r == 1
  {
    (v as int / Pow(2, n) % 2) as int32
  }

  /** `b | 0x40`, sign-extended. */
  function OrBit6(b: int8): int32 {
    if b / 64 % 2 == 1 then b as int32 else b as int32 + 64
  }

  /** `b & 0xF8` */
  function AndF8(b: int8): int32 {
    (b as int % 256 / 8 * 8) as int32
  }

  /** The bits of byte `pos` of the clamped key, as far as the ladder uses them. */
  ghost predicate ByteOf(key: Bytes, pos: nat, v: int32)
    requires |key| == 32 && pos < 32
  {
    if pos == 31 then v as int % 128 == Clamp(key)[31] else v as int % 256 == Clamp(key)[pos]
  }

  lemma ClampedTop(b: int8, v: int32, key: Bytes)
    requires |key| == 32 && key[31] == b as int % 256 && v == OrBit6(b)
    ensures ByteOf(key, 31, v)
  {
  }

  lemma ClampedBottom(b: int8, v: int32, key: Bytes)
    requires |key| == 32 && key[0] == b as int % 256 && v == AndF8(b)
    ensures ByteOf(key, 0, v)
  {
  }

  lemma ClampedMiddle(pos: nat, key: Bytes)
    requires |key| == 32 && 0 < pos < 31
    ensures Clamp(key)[pos] == key[pos]
  {
  }

  /** What evalCurve reads from a byte of the key are bits of the scalar. */
  lemma KeyBit(key: Bytes, pos: nat, v: int32, n: nat)
    requires |key| == 32 && pos < 32 && ByteOf(key, pos, v) && n <= (if pos == 31 then 6 else 7)
    ensures BitOf(v, n) == 1 <==> Bit(DecodeScalar(key), 8 * pos + n)
  {
    SmallPowers();
    ScalarBit(Clamp(key), pos, n);
    LowBit(v as int, n, if pos == 31 then 7 else 8);
  }

  lemma LimbQuotient(s: seq<int>, i: nat, w: nat, bit: nat)
    requires |s| == 10 && Digits(B, s) && w < 10 && 8 * i == 26 * w + bit && bit < 26
    ensures Pow(256, i) > 0 && Pow(2, bit) > 0
    ensures Val(B, s) / Pow(256, i) == s[w] / Pow(2, bit) + Pow(2, 26 - bit) * Val(B, s[w + 1..])
  {
    hide Val, Pow;
    Weight(i, w, bit);
    DivDiv(Val(B, s), Pow(B, w), Pow(2, bit));
    DropDigits(B, s, w);
    FirstDigit(B, s[w..]);
    assert s[w..][1..] == s[w + 1..];
    ShiftLimb(s[w], Val(B, s[w + 1..]), Pow(2, bit), Pow(2, 26 - bit));
  }

  lemma WithinLimb(x: int, rest: int, bit: nat)
    requires bit <= 18
    ensures (x + Pow(2, 26 - bit) * rest) % 256 == x % 256
  {
    PowAdd(2, 8, 18 - bit);
    SmallPowers();
    hide Pow;
    var u := Pow(2, 18 - bit) * rest;
    assert (256 * Pow(2, 18 - bit)) * rest == 256 * u;
    ByteShift(x, 256 * u, u);
  }

  lemma AcrossLimbs(x: int, d: int, more: int, k: int)
    ensures (x + k * (d + B * more)) % 256 == (x + d * k) % 256
  {
    var u := 0x4_0000 * k * more;
    assert k * (d + B * more) == d * k + 256 * u;
    ByteShift(x + d * k, 256 * u, u);
  }

  /** Byte i of a number in 26-bit limbs straddles at most two of them. */
  lemma LimbByte(s: seq<int>, i: nat)
    requires |s| == 10 && Digits(B, s) && i < 32
    ensures Val(B, s) >= 0
    ensures var w, bit := 8 * i / 26, 8 * i % 26;
            && w < 10
            && (bit <= 18 ==> Encode(Val(B, s))[i] == s[w] / Pow(2, bit) % 256)
            && (bit > 18 ==> w < 9 && Encode(Val(B, s))[i] == (s[w] / Pow(2, bit) + s[w + 1] * Pow(2, 26 - bit)) % 256)
  {
    hide Val, Pow;
    ValBound(B, s);
    var w, bit := 8 * i / 26, 8 * i % 26;
    LimbQuotient(s, i, w, bit);
    if bit <= 18 {
      WithinLimb(s[w] / Pow(2, bit), Val(B, s[w + 1..]), bit);
    } else {
      assert w < 9;
      FirstDigit(B, s[w + 1..]);
      AcrossLimbs(s[w] / Pow(2, bit), s[w + 1], Val(B, s[w + 1..][1..]), Pow(2, 26 - bit));
    }
  }

  lemma Weight(i: nat, w: nat, bit: nat)
    requires 8 * i == 26 * w + bit && bit < 26
    ensures Pow(256, i) == Pow(B, w) * Pow(2, bit)
    ensures Pow(2, bit) * Pow(2, 26 - bit) == B
  {
    assert Pow(2, 8) == 256;
    assert Pow(2, 13) == 0x2000;
    PowAdd(2, 13, 13);
    PowPow(2, 8, i);
    PowPow(2, 26, w);
    PowAdd(2, 26 * w, bit);
    PowAdd(2, bit, 26 - bit);
  }

  lemma ShiftLimb(x: int, rest: int, m: nat, k: nat)
    requires m > 0 && m * k == B
    ensures (x + B * rest) / m == x / m + k * rest
  {
    assert x + B * rest == (x / m + k * rest) * m + x % m by {
      assert B * rest == (k * rest) * m;
    }
    DivUnique(x + B * rest, m, x / m + k * rest, x % m);
  }

  lemma ByteShift(x: int, y: int, z: int)
    requires y == 256 * z
    ensures (x + y) % 256 == x % 256
  {
  }

  lemma LowByteOfWord(v: int)
    ensures Wrap32(v) as int % 256 == v % 256
  {
    var w := Wrap32(v) as int;
    var k := (v - w) / 0x1_0000_0000;
    assert v == w + 256 * (0x100_0000 * k);
    ByteShift(w, 256 * (0x100_0000 * k), 0x100_0000 * k);
  }

  lemma SmallValue(x: seq<int32>, v: int32)
    requires |x| == 10 && x[0] == v && 0 <= v < 10
    requires forall k :: 1 <= k < 10 ==> x[k] == 0
    ensures Canon(x) && Fe(x) == v as int
  {
    FirstDigit(B, Ints(x));
    assert Ints(x)[1..] == Zeros(9);
    ValZeros(B, 9);
  }

  // ----- or and shifts on limbs -----

  /** `hi | lo` on int, where hi has k zero bits at its low end and lo fits them. */
  lemma OrOfParts(hi: int, lo: int, k: nat)
    requires -0x8000_0000 <= hi < 0x8000_0000 && k <= 26
    requires hi % Pow(2, k) == 0 && 0 <= lo < Pow(2, k)
    ensures Fits(hi, 31) && Fits(lo, 31) && Or(hi, lo, 31) == hi + lo && Or(lo, hi, 31) == hi + lo
  {
    PowUpTo26(k);
    hide Pow, And;
    WordSizes();
    OrDisjoint(hi, lo, k, 31);
    AndCommutes(-1 - hi, -1 - lo, 31);
  }

  lemma PowUpTo26(k: nat)
    requires k <= 26
    ensures 1 <= Pow(2, k) <= B && B % Pow(2, k) == 0 && Pow(2, k) * Pow(2, 26 - k) == B
  {
    hide Pow;
    Weight(13, 4, 0);
    PowAdd(2, k, 26 - k);
    TwoTo26(26);
    var a, b := Pow(2, k), Pow(2, 26 - k);
    assert a * b == B;
    assert a >= 1 && b >= 1;
    DivUnique(B, a, b, 0);
    assert a <= a * b;
  }

  lemma TwoTo26(n: nat)
    requires n == 26
    ensures Pow(2, n) == B
  {
    assert Pow(2, 13) == 0x2000;
    PowAdd(2, 13, 13);
  }

  /** A left shift by k, cut to 32 bits, still has k zero bits at its low end. */
  lemma ShiftedZeros(v: int, k: nat)
    requires k <= 26
    ensures Pow(2, k) > 0 && Wrap32(v * Pow(2, k)) as int % Pow(2, k) == 0
    ensures Wrap32(v * Pow(2, k)) as int % 0x1_0000_0000 == v * Pow(2, k) % 0x1_0000_0000
  {
    PowUpTo26(k);
    hide Pow;
    var m := Pow(2, k);
    var w := Wrap32(v * m) as int;
    var q := (v * m - w) / 0x1_0000_0000;
    SameResidue(v * m, w, q);
    ZerosStay(v, w, m, Pow(2, 26 - k), q);
  }

  lemma SameResidue(x: int, w: int, q: int)
    requires x % 0x1_0000_0000 == w % 0x1_0000_0000 && q == (x - w) / 0x1_0000_0000
    ensures x - w == 0x1_0000_0000 * q
  {
  }

  lemma ZerosStay(v: int, w: int, m: int, n: int, q: int)
    requires m > 0 && m * n == B && v * m - w == 0x1_0000_0000 * q
    ensures w % m == 0
  {
    var h := 64 * n * q;
    assert h * m == 64 * (m * n) * q;
    assert w == (v - h) * m + 0;
    DivUnique(w, m, v - h, 0);
  }

  lemma LimbTop(x: int, bit: nat)
    requires 0 <= x < B && bit <= 26
    ensures Pow(2, bit) > 0 && 0 <= x / Pow(2, bit) < Pow(2, 26 - bit)
  {
    PowUpTo26(bit);
    hide Pow;
    QuotientBelow(x, Pow(2, bit), Pow(2, 26 - bit));
  }

  lemma QuotientBelow(x: int, a: int, b: int)
    requires 0 <= x < a * b && a > 0
    ensures 0 <= x / a < b
  {
    var q := x / a;
    assert x == a * q + x % a;
    assert a * (q - b) < 0;
  }

  lemma SumByte(low: int, high: int, shifted: int)
    requires high % 0x1_0000_0000 == shifted % 0x1_0000_0000
    ensures (high + low) % 256 == (low + shifted) % 256
  {
    var p, q := shifted / 0x1_0000_0000, high / 0x1_0000_0000;
    var k := 0x100_0000 * (p - q);
    assert shifted == high + 256 * k;
    ByteShift(high + low, 256 * k, k);
  }

  // ----- reading 32 bytes into limbs -----

  lemma {:induction false} ValUpdate(b: nat, s: seq<int>, w: nat, d: int)
    requires w < |s|
    ensures Val(b, s[w := s[w] + d]) == Val(b, s) + d * Pow(b, w)
    decreases |s|
  {
    hide Pow;
    var n := |s| - 1;
    var t := s[w := s[w] + d];
    if w == n {
      assert t[..n] == s[..n];
      assert (s[n] + d) * Pow(b, n) == s[n] * Pow(b, n) + d * Pow(b, n);
    } else {
      ValUpdate(b, s[..n], w, d);
      assert t[..n] == s[..n][w := s[w] + d];
    }
  }

  /** The first i bytes of the key are in the limbs, and nothing else is. */
  ghost predicate Unpacked(s: seq<int>, key: Bytes, i: nat)
    requires |key| == 32 && i <= 32
  {
    var w, bit := 8 * i / 26, 8 * i % 26;
    && |s| == 10 && Digits(B, s) && s[w] < Pow(2, bit)
    && (forall k :: w < k < 10 ==> s[k] == 0)
    && Val(B, s) == Val(256, key[..i])
  }

  lemma UnpackedStart(s: seq<int>, key: Bytes)
    requires |s| == 10 && |key| == 32 && forall k :: 0 <= k < 10 ==> s[k] == 0
    ensures Unpacked(s, key, 0)
  {
    assert s == Zeros(10);
    ValZeros(B, 10);
    assert Pow(2, 0) == 1;
    assert key[..0] == [];
  }

  lemma ByteWeight(key: Bytes, i: nat, w: nat, bit: nat)
    requires |key| == 32 && i < 32 && 8 * i == 26 * w + bit && bit < 26
    ensures Val(256, key[..i + 1]) == Val(256, key[..i]) + key[i] * Pow(2, bit) * Pow(B, w)
  {
    hide Pow, Val;
    ValNext(256, key, i);
    Weight(i, w, bit);
    assert key[i] * (Pow(B, w) * Pow(2, bit)) == key[i] * Pow(2, bit) * Pow(B, w);
  }

  lemma ByteRoom(x: int, v: int, bit: nat)
    requires bit <= 18 && 0 <= x < Pow(2, bit) && 0 <= v < 256
    ensures Pow(2, bit + 8) == 256 * Pow(2, bit) <= B
    ensures 0 <= x + v * Pow(2, bit) < Pow(2, bit + 8)
  {
    PowAdd(2, bit, 8);
    SmallPowers();
    PowUpTo26(bit + 8);
    hide Pow;
    RoomArithmetic(x, v, Pow(2, bit));
  }

  lemma RoomArithmetic(x: int, v: int, m: int)
    requires 0 <= x < m && 0 <= v < 256
    ensures 0 <= x + v * m < 256 * m
  {
    assert (v + 1) * m <= 256 * m;
    assert 0 <= v * m;
  }

  lemma UnpackWithin(s: seq<int>, key: Bytes, i: nat, w: nat, bit: nat)
    requires |key| == 32 && i < 32 && Unpacked(s, key, i) && 8 * i == 26 * w + bit && bit <= 18
    ensures Unpacked(s[w := s[w] + key[i] * Pow(2, bit)], key, i + 1)
  {
    hide Pow, Val;
    NextPlace(i, w, bit);
    ByteWeight(key, i, w, bit);
    ByteRoom(s[w], key[i], bit);
    var d := key[i] * Pow(2, bit);
    ValUpdate(B, s, w, d);
    PowZero();
    TwoTo26(26);
    UnpackPlace(s, s[w] + d, key, i, w, bit);
  }

  lemma UnpackPlace(s: seq<int>, limb: int, key: Bytes, i: nat, w: nat, bit: nat)
    requires |key| == 32 && i < 32 && Unpacked(s, key, i) && 8 * i == 26 * w + bit && bit <= 18 && w < 10
    requires 0 <= limb < Pow(2, bit + 8) <= B && Pow(2, 0) == 1
    requires Val(B, s[w := limb]) == Val(256, key[..i + 1])
    ensures Unpacked(s[w := limb], key, i + 1)
  {
    hide Pow, Val;
    NextPlace(i, w, bit);
  }

  lemma PowZero()
    ensures Pow(2, 0) == 1
  {
  }

  lemma NextPlace(i: nat, w: nat, bit: nat)
    requires i < 32 && 8 * i == 26 * w + bit && bit < 26
    ensures 8 * i / 26 == w && 8 * i % 26 == bit && w < 10 && (bit > 18 ==> w < 9)
    ensures bit < 18 ==> 8 * (i + 1) / 26 == w && 8 * (i + 1) % 26 == bit + 8
    ensures bit >= 18 ==> 8 * (i + 1) / 26 == w + 1 && 8 * (i + 1) % 26 == bit - 18
    ensures bit == 18 ==> w < 9
  {
    DivUnique(8 * i, 26, w, bit);
    if bit < 18 {
      DivUnique(8 * (i + 1), 26, w, bit + 8);
    } else {
      DivUnique(8 * (i + 1), 26, w + 1, bit - 18);
    }
    assert w == 9 ==> bit <= 14;
  }

  /** A byte that straddles two limbs leaves its high bits in the next one. */
  lemma ByteSplits(x: int, v: int, bit: nat)
    requires 18 < bit < 26 && 0 <= x < Pow(2, bit) && 0 <= v < 256
    ensures Pow(2, 26 - bit) > 0
    ensures x + v * Pow(2, bit) == (x + v * Pow(2, bit)) % B + B * (v / Pow(2, 26 - bit))
    ensures 0 <= v / Pow(2, 26 - bit) < Pow(2, bit - 18) <= B
  {
    PowUpTo26(bit);
    PowUpTo26(bit - 18);
    PowAdd(2, 26 - bit, bit - 18);
    SmallPowers();
    hide Pow;
    SplitArithmetic(x, v, Pow(2, bit), Pow(2, 26 - bit));
    QuotientBelow(v, Pow(2, 26 - bit), Pow(2, bit - 18));
  }

  lemma SplitArithmetic(x: int, v: int, m: int, n: int)
    requires m > 0 && n > 0 && m * n == B && 0 <= x < m && 0 <= v
    ensures x + v * m == (x + v * m) % B + B * (v / n)
  {
    var q, r := v / n, v % n;
    assert v * m == q * (m * n) + r * m by {
      assert v == n * q + r;
    }
    assert (r + 1) * m <= n * m;
    DivUnique(x + v * m, B, q, x + r * m);
  }

  lemma UnpackAcross(s: seq<int>, key: Bytes, i: nat, w: nat, bit: nat)
    requires |key| == 32 && i < 32 && Unpacked(s, key, i) && 8 * i == 26 * w + bit && 18 < bit < 26
    ensures w < 9 && Pow(2, 26 - bit) > 0
    ensures Unpacked(s[w := (s[w] + key[i] * Pow(2, bit)) % B][w + 1 := key[i] / Pow(2, 26 - bit)], key, i + 1)
  {
    hide Pow, Val;
    NextPlace(i, w, bit);
    ByteWeight(key, i, w, bit);
    ByteSplits(s[w], key[i], bit);
    var sum := s[w] + key[i] * Pow(2, bit);
    var q := key[i] / Pow(2, 26 - bit);
    var t := s[w := sum % B];
    ValUpdate(B, s, w, sum % B - s[w]);
    ValUpdate(B, t, w + 1, q);
    NextWeight(w);
    SplitWeight(key[i] * Pow(2, bit), sum % B - s[w], q, Pow(B, w));
  }

  lemma NextWeight(w: nat)
    ensures Pow(B, w + 1) == B * Pow(B, w)
  {
  }

  lemma SplitWeight(v: int, d: int, q: int, p: int)
    requires v == d + B * q
    ensures v * p == d * p + q * (B * p)
  {
    assert (B * q) * p == q * (B * p);
  }

  /** 32 bytes stay below 2^256. */
  lemma UnpackedBound(s: seq<int>, key: Bytes)
    requires |key| == 32 && Unpacked(s, key, 32)
    ensures 0 <= Val(B, s) == Val(256, key) < 2 * TWO255
  {
    hide Val;
    assert key[..32] == key;
    Weights();
    TwoTo22(22);
    hide Pow;
    ValBound(B, s[..9]);
    ValNext(B, s, 9);
    assert s[..10] == s;
    assert 8 * 32 / 26 == 9 && 8 * 32 % 26 == 22;
    TopBound(s[9], Val(B, s[..9]));
  }

  lemma TopBound(top: int, rest: int)
    requires 0 <= top < 0x40_0000 && 0 <= rest < TWO234
    ensures 0 <= rest + top * TWO234 < 2 * TWO255
  {
  }

  lemma TwoTo22(n: nat)
    requires n == 22
    ensures Pow(2, n) == 0x40_0000
  {
    assert Pow(2, 11) == 0x800;
    PowAdd(2, 11, 11);
  }

  lemma SumWord(x: int, shifted: int, exact: int)
    requires shifted % 0x1_0000_0000 == exact % 0x1_0000_0000
    ensures (shifted + x) % 0x1_0000_0000 == (x + exact) % 0x1_0000_0000
  {
    var q := (exact - shifted) / 0x1_0000_0000;
    SameResidue(exact, shifted, q);
    assert x + exact == shifted + x + 0x1_0000_0000 * q;
  }

  /** `r & 0x03FFFFFF` only needs the low 26 bits. */
  lemma LowLimb(r: int, exact: int)
    requires r % 0x1_0000_0000 == exact % 0x1_0000_0000
    ensures r % B == exact % B
  {
    var q := (exact - r) / 0x1_0000_0000;
    SameResidue(exact, r, q);
    assert exact == (r / B + 64 * q) * B + r % B;
    DivUnique(exact, B, r / B + 64 * q, r % B);
  }

  lemma UnpackedRoom(s: seq<int>, key: Bytes, i: nat, w: nat, bit: nat)
    requires |key| == 32 && i < 32 && Unpacked(s, key, i) && w == 8 * i / 26 && bit == 8 * i % 26
    ensures |s| == 10 && w < 10 && 0 <= s[w] < Pow(2, bit) && 8 * i == 26 * w + bit
    ensures forall k :: w < k < 10 ==> s[k] == 0
    ensures forall k :: 0 <= k < 10 ==> 0 <= s[k] < B
    ensures bit > 18 ==> w < 9
  {
    hide Pow, Val;
    NextPlace(i, w, bit);
  }

  lemma UnpackedLimbs(x: seq<int32>, key: Bytes, i: nat)
    requires |key| == 32 && i <= 32 && Unpacked(Ints(x), key, i)
    ensures Limbs(x)
  {
    hide Val, Pow;
    assert forall k :: 0 <= k < 10 ==> Ints(x)[k] == x[k] as int;
  }

  /** `0 | (value >> (26 - bit))` */
  lemma HighBits(value: int, bit: nat)
    requires 18 < bit < 26 && 0 <= value < 256
    ensures Pow(2, 26 - bit) > 0 && 0 <= value / Pow(2, 26 - bit) < 256
    ensures Fits(0, 31) && Fits(value / Pow(2, 26 - bit), 31)
    ensures Or(0, value / Pow(2, 26 - bit), 31) == value / Pow(2, 26 - bit)
  {
    hide Or;
    PowUpTo26(26 - bit);
    SmallPowers();
    hide Pow;
    QuotientSmall(value, Pow(2, 26 - bit));
    OrOfParts(0, value / Pow(2, 26 - bit), 8);
  }

  lemma QuotientSmall(v: int, n: int)
    requires 0 <= v < 256 && n > 0
    ensures 0 <= v / n < 256
  {
    assert n * 256 >= 256;
    QuotientBelow(v, n, 256);
  }

  lemma ExactWord(r: int, exact: int)
    requires -0x8000_0000 <= r < 0x8000_0000 && 0 <= exact < 0x8000_0000
    requires r % 0x1_0000_0000 == exact % 0x1_0000_0000
    ensures r == exact
  {
  }
}
