/** The bits of a little-endian number are the bits of its bytes. */
module LittleEndianBits {
  import opened MachineInts
  import opened Radix
  import opened X25519

  lemma SmallPowers()
    ensures Pow(2, 0) == 1 && Pow(2, 1) == 2 && Pow(2, 2) == 4 && Pow(2, 3) == 8
    ensures Pow(2, 4) == 16 && Pow(2, 5) == 32 && Pow(2, 6) == 64 && Pow(2, 7) == 128 && Pow(2, 8) == 256
  {
  }

  /** Bits below the width-th only depend on the low `width` bits. */
  lemma LowBit(v: int, n: nat, width: nat)
    requires n < width
    ensures Pow(2, width) > 0 && v / Pow(2, n) % 2 == v % Pow(2, width) / Pow(2, n) % 2
  {
    PowAdd(2, n + 1, width - 1 - n);
    hide Pow;
    assert Pow(2, n + 1) == 2 * Pow(2, n) by { PowAdd(2, n, 1); SmallPowers(); }
    LowBitOfQuotient(v, Pow(2, n), Pow(2, width - 1 - n), Pow(2, width));
  }

  lemma LowBitOfQuotient(v: int, m: nat, h: nat, w: nat)
    requires m > 0 && w > 0 && 2 * m * h == w
    ensures v / m % 2 == v % w / m % 2
  {
    var q, r := v / w, v % w;
    var c, d := r / m, r % m;
    assert v == w * q + r && r == m * c + d;
    MultipleShift(m, h, q, c);
    DivUnique(v, m, 2 * (h * q) + c, d);
    EvenShift(c, h * q);
  }

  lemma MultipleShift(m: int, h: int, q: int, c: int)
    ensures (2 * m * h) * q + m * c == (2 * (h * q) + c) * m
  {
  }

  lemma EvenShift(x: int, y: int)
    ensures (2 * y + x) % 2 == x % 2
  {
  }

  /** A bit of a little-endian number is a bit of one of its bytes. */
  lemma ScalarBit(s: Bytes, i: nat, n: nat)
    requires i < |s| && n < 8
    ensures Val(256, s) >= 0
    ensures Bit(Val(256, s), 8 * i + n) <==> s[i] / Pow(2, n) % 2 == 1
  {
    ValBound(256, s);
    var k := Val(256, s);
    assert Pow(2, 8) == 256;
    PowPow(2, 8, i);
    PowAdd(2, 8 * i, n);
    DivDiv(k, Pow(256, i), Pow(2, n));
    DigitAt(256, s, i);
    LowBit(k / Pow(256, i), n, 8);
  }

  /** `(b >> n) & 1` of an unsigned byte. */
  method BitOfByte(b: uint8, n: nat) returns (r: int)
    ensures r == 0 || r == 1
    ensures r == 1 <==> b as int / Pow(2, n) % 2 == 1
  {
    r := b as int / Pow(2, n) % 2;
  }

  /** Unsigned bytes as numbers. */
  ghost function Octets(s: seq<uint8>): (r: Bytes)
    ensures |r| == |s| && forall i :: 0 <= i < |s| ==> r[i] == s[i] as int
  {
    seq(|s|, i requires 0 <= i < |s| => s[i] as int)
  }
}
