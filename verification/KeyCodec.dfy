/** The constant-time key codec, encoding.c and Key.java.  The two sources share
    their formulas; what differs is the value a character is promoted to and the
    kind of the right shift. */
module KeyCodec {
  import opened MachineInts
  import opened Radix
  import opened Words
  import opened KeyText

  /** C with signed or with unsigned `char`, and Java. */
  datatype Dialect = SignedChar | UnsignedChar | Java

  predicate Latin(t: string) {
    forall i :: 0 <= i < |t| ==> t[i] as int < 0x100
  }

  /** A char has eight bits in C and sixteen in Java. */
  predicate IsChar(c: char, dialect: Dialect) {
    c as int < if dialect == Java then 0x1_0000 else 0x100
  }

  predicate IsText(t: string, dialect: Dialect) {
    forall i :: 0 <= i < |t| ==> IsChar(t[i], dialect)
  }

  /** The integer a character is promoted to. */
  function Promote(c: char, dialect: Dialect): (v: int)
    requires IsChar(c, dialect)
    ensures -0x80 <= v < 0x1_0000 && (dialect != Java ==> v < 0x100)
  {
    if dialect == SignedChar && c as int >= 0x80 then c as int - 0x100 else c as int
  }

  lemma Word(v: int)
    requires -0x8000_0000 <= v < 0x8000_0000
    ensures Fits(v, 31)
  {
    hide Pow;
    WordSizes();
  }

  lemma Narrow(v: int)
    requires -0x100 <= v < 0x100
    ensures Fits(v, 8) && Fits(v, 31)
  {
    assert Pow(2, 8) == 0x100;
    Word(v);
  }

  /** `x & y` on 32-bit words. */
  function And32(x: int, y: int): (r: int)
    requires -0x8000_0000 <= x < 0x8000_0000 && -0x8000_0000 <= y < 0x8000_0000
    ensures -0x8000_0000 <= r < 0x8000_0000
  {
    WordSizes();
    And(x, y, 31)
  }

  /** `x | y` on 32-bit words. */
  function Or32(x: int, y: int): (r: int)
    requires -0x8000_0000 <= x < 0x8000_0000 && -0x8000_0000 <= y < 0x8000_0000
    ensures -0x8000_0000 <= r < 0x8000_0000
  {
    WordSizes();
    Or(x, y, 31)
  }

  /** `v >> 8`, arithmetic in C and `>>>`, logical, in Java. */
  function Shift8(v: int, dialect: Dialect): (r: int)
    requires -0x8000_0000 <= v < 0x8000_0000
    ensures -0x80_0000 <= r < 0x100_0000
  {
    if dialect == Java then v % 0x1_0000_0000 / 0x100 else v / 0x100
  }

  /** `((lo - 1 - c) & (c - (hi + 1))) >> 8`: all ones where lo <= c <= hi. */
  function RangeMask(c: int, lo: int, hi: int, dialect: Dialect): (m: int)
    requires -0x80 <= c < 0x1_0000 && 0 < lo < 0x80 && 0 < hi < 0x80
    ensures -0x80_0000 <= m < 0x100_0000
  {
    Shift8(And32(lo - 1 - c, c - (hi + 1)), dialect)
  }

  /** `v & mask` for the masks the shift yields, when the value kept is below
      2^24: nothing, or the value. */
  lemma MaskSelects(v: int, kept: int, dialect: Dialect)
    requires -0x100 <= v < 0x100 && -0x100 <= kept < 0x100
    requires dialect == Java && v < 0 ==> kept >= 0
    ensures And32(Shift8(v, dialect), kept) == if v < 0 then kept else 0
  {
    hide Pow, And;
    var m := Shift8(v, dialect);
    Word(m);
    Word(kept);
    if v >= 0 {
      assert m == 0;
      AndMasks(kept, 31);
    } else if dialect == Java {
      assert m == 0xff_ffff;
      TwoTo24(24);
      AndLow(kept, 24, 31);
    } else {
      assert m == -1;
      AndMasks(kept, 31);
    }
  }

  lemma TwoTo24(n: nat)
    requires n == 24
    ensures Pow(2, n) == 0x100_0000
  {
    assert Pow(2, 8) == 0x100;
    PowAdd(2, 8, 8);
    PowAdd(2, 16, 8);
  }

  lemma RangeSelects(c: int, lo: int, hi: int, kept: int, dialect: Dialect)
    requires -0x80 <= c < 0x100 && 0 < lo <= hi < 0x80 && -0x100 <= kept < 0x200
    requires lo <= c <= hi ==> 0 <= kept < 0x100
    ensures And32(RangeMask(c, lo, hi, dialect), kept) == if lo <= c <= hi then kept else 0
  {
    hide Pow, And;
    var x, y := lo - 1 - c, c - (hi + 1);
    Narrow(x);
    Narrow(y);
    AndSign(x, y, 8, 31);
    var v := And32(x, y);
    assert -0x100 <= v < 0x100 by {
      TwoTo8(8);
    }
    if v < 0 {
      MaskSelects(v, kept, dialect);
    } else {
      assert Shift8(v, dialect) == 0;
      Word(kept);
      AndMasks(kept, 31);
    }
  }

  lemma TwoTo8(n: nat)
    requires n == 8
    ensures Pow(2, n) == 0x100
  {
    assert Pow(2, 8) == 0x100;
  }

  // ----- one base64 digit -----

  /** The character formula of encode_base64. */
  function EncodeDigit(d: int, dialect: Dialect): (c: int)
    requires 0 <= d < 64
  {
    d + 65
    + And32(Shift8(25 - d, dialect), 6)
    - And32(Shift8(51 - d, dialect), 75)
    - And32(Shift8(61 - d, dialect), 15)
    + And32(Shift8(62 - d, dialect), 3)
  }

  lemma EncodeDigitIsAlphabet(d: int, dialect: Dialect)
    requires 0 <= d < 64
    ensures EncodeDigit(d, dialect) == Alphabet(d) as int
  {
    hide And32, Shift8;
    MaskSelects(25 - d, 6, dialect);
    MaskSelects(51 - d, 75, dialect);
    MaskSelects(61 - d, 15, dialect);
    MaskSelects(62 - d, 3, dialect);
  }

  /** The character formula of decode_base64. */
  function DecodeDigit(c: int, dialect: Dialect): (d: int)
    requires -0x80 <= c < 0x1_0000
  {
    -1
    + And32(RangeMask(c, 65, 90, dialect), c - 64)
    + And32(RangeMask(c, 97, 122, dialect), c - 70)
    + And32(RangeMask(c, 48, 57, dialect), c + 5)
    + And32(RangeMask(c, 43, 43, dialect), 63)
    + And32(RangeMask(c, 47, 47, dialect), 64)
  }

  /** The digit a character is read as.  Above 0xFF, which only Java has, the
      logical shift makes the masks imprecise: the low octet is read, but its place
      in the alphabet, counted from one, only modulo the power of two that divides
      the high octet. */
  function ReadDigit(c: char): (d: int)
    requires c as int < 0x1_0000
    ensures -1 <= d < 64
    ensures c as int < 0x100 ==> d == DigitOf(c)
  {
    if c as int < 0x100 then DigitOf(c)
    else
      var low := DigitOf((c as int % 0x100) as char);
      if low < 0 then -1 else Residue(low + 1, Trailing(c as int / 0x100)) - 1
  }

  function Residue(n: nat, p: nat): (r: nat)
    requires p > 0
    ensures r == n % p && r <= n
  {
    QuotientPart(n, p);
    n % p
  }

  lemma QuotientPart(n: nat, p: nat)
    requires p > 0
    ensures n % p <= n
  {
    assert n == p * (n / p) + n % p;
    assert p * (n / p) >= 0;
  }

  lemma DecodeDigitIsReadDigit(c: char, dialect: Dialect)
    requires IsChar(c, dialect)
    ensures DecodeDigit(Promote(c, dialect), dialect) == ReadDigit(c)
  {
    hide And32, RangeMask;
    if c as int < 0x100 {
      var v := Promote(c, dialect);
      RangeSelects(v, 65, 90, v - 64, dialect);
      RangeSelects(v, 97, 122, v - 70, dialect);
      RangeSelects(v, 48, 57, v + 5, dialect);
      RangeSelects(v, 43, 43, 63, dialect);
      RangeSelects(v, 47, 47, 64, dialect);
    } else {
      WideDigit(c as int);
    }
  }

  /** The mask of a range for a wide character. */
  lemma WideMask(c: int, lo: int, hi: int)
    requires 0x100 <= c < 0x1_0000 && 0 < lo <= hi < 0x80 && hi - lo < 0x40
    ensures RangeMask(c, lo, hi, Java) == if lo <= c % 0x100 <= hi then Trailing(c / 0x100) - 1 else 0
  {
    var x, w := c - lo, hi + 1 - lo;
    hide And32, Trailing;
    WideAnd(x, w);
    WidePlace(c, lo, hi);
    WideShift(And32(lo - 1 - c, c - (hi + 1)));
  }

  lemma WidePlace(c: int, lo: int, hi: int)
    requires 0x100 <= c < 0x1_0000 && 0 < lo <= hi < 0x80
    ensures (c - lo) % 0x100 < hi + 1 - lo <==> lo <= c % 0x100 <= hi
    ensures lo <= c % 0x100 <= hi ==> (c - lo) / 0x100 == c / 0x100
  {
    var b, h := c % 0x100, c / 0x100;
    assert c == 0x100 * h + b;
    if b >= lo {
      assert (c - lo) % 0x100 == b - lo && (c - lo) / 0x100 == h;
    } else {
      assert (c - lo) % 0x100 == b - lo + 0x100;
    }
  }

  /** `~x & (x - w)` without its low octet. */
  lemma WideAnd(x: int, w: int)
    requires 0x80 <= x < 0x1_0000 && 0 < w <= 0x40
    ensures x % 0x100 < w ==> x / 0x100 > 0 && And32(-1 - x, x - w) / 0x100 == Trailing(x / 0x100) - 1
    ensures x % 0x100 >= w ==> And32(-1 - x, x - w) / 0x100 == 0
  {
    Word8();
    hide Pow, And, Trailing;
    Word(-1 - x);
    Word(x - w);
    AndHigh(-1 - x, x - w, 8, 31);
    var high := x / 0x100;
    HighOctets(x, w);
    if x % 0x100 < w {
      AndTrailing(high, 23);
    } else {
      AndComplement(high, 23);
    }
  }

  lemma HighOctets(x: int, w: int)
    requires 0x80 <= x < 0x1_0000 && 0 < w <= 0x40
    ensures (-1 - x) / 0x100 == -1 - x / 0x100
    ensures x % 0x100 < w ==> x / 0x100 > 0 && (x - w) / 0x100 == x / 0x100 - 1
    ensures x % 0x100 >= w ==> (x - w) / 0x100 == x / 0x100
    ensures Fits(x / 0x100, 23)
  {
    hide Pow;
    TwoTo23(23);
  }

  lemma TwoTo23(n: nat)
    requires n == 23
    ensures Pow(2, n) == 0x80_0000
  {
    Word8();
    PowAdd(2, 8, 8);
    PowAdd(2, 16, 7);
    assert Pow(2, 7) == 0x80;
  }

  lemma Word8()
    ensures Pow(2, 8) == 0x100
  {
  }

  lemma WideShift(v: int)
    requires -0x8000_0000 <= v < 0x8000_0000 && v / 0x100 >= 0
    ensures Shift8(v, Java) == v / 0x100
  {
  }

  lemma WideSelects(c: int, lo: int, hi: int, kept: int)
    requires 0x100 <= c < 0x1_0000 && 0 < lo <= hi < 0x80 && hi - lo < 0x40 && 0 <= kept < 0x2_0000
    ensures And32(RangeMask(c, lo, hi, Java), kept)
         == if lo <= c % 0x100 <= hi then kept % Trailing(c / 0x100) else 0
  {
    WideMask(c, lo, hi);
    Word8();
    hide Pow, And, RangeMask;
    Word(kept);
    if lo <= c % 0x100 <= hi {
      var k := TrailingIsPower(c / 0x100, 8);
      Word(RangeMask(c, lo, hi, Java));
      AndLow(kept, k, 31);
    } else {
      AndMasks(kept, 31);
    }
  }

  lemma WideDigit(c: int)
    requires 0x100 <= c < 0x1_0000 && 0 <= c % 0x100 < 0x100
    ensures var low := DigitOf((c % 0x100) as char);
            DecodeDigit(c, Java) == if low < 0 then -1 else (low + 1) % Trailing(c / 0x100) - 1
  {
    hide And32, RangeMask, Trailing;
    WideSelects(c, 65, 90, c - 64);
    WideSelects(c, 97, 122, c - 70);
    WideSelects(c, 48, 57, c + 5);
    WideSelects(c, 43, 43, 63);
    WideSelects(c, 47, 47, 64);
    LowOctetOnly(c, -64);
    LowOctetOnly(c, -70);
    LowOctetOnly(c, 5);
  }

  /** The power of two divides 256, so only the low octet matters. */
  lemma LowOctetOnly(c: int, d: int)
    requires 0x100 <= c < 0x1_0000
    ensures (c + d) % Trailing(c / 0x100) == (c % 0x100 + d) % Trailing(c / 0x100)
  {
    Word8();
    var k := TrailingIsPower(c / 0x100, 8);
    PowAdd(2, k, 8 - k);
    hide Pow, Trailing;
    var p, m, h := Trailing(c / 0x100), Pow(2, 8 - k), c / 0x100;
    Associates(p, m, h);
    assert p * m == 0x100;
    SameModulo(c % 0x100 + d, p, m * h, c + d);
  }

  lemma Associates(p: int, m: int, h: int)
    ensures (p * m) * h == p * (m * h)
  {
  }

  lemma SameModulo(x: int, p: int, q: int, y: int)
    requires p > 0 && y == x + p * q
    ensures y % p == x % p
  {
    assert y == (x / p + q) * p + x % p;
    DivUnique(y, p, x / p + q, x % p);
  }

  /** The character of the alphabet that a character is read as. */
  function Seen(c: char): (r: char)
    requires c as int < 0x1_0000
    ensures DigitOf(r) == ReadDigit(c)
    ensures c as int < 0x100 ==> r == c
    ensures r == '=' <==> c == '='
  {
    if ReadDigit(c) < 0 then c else DigitOfAlphabet(ReadDigit(c)); Alphabet(ReadDigit(c))
  }

  function SeenText(t: string): (r: string)
    requires forall i :: 0 <= i < |t| ==> t[i] as int < 0x1_0000
    ensures |r| == |t| && forall i :: 0 <= i < |t| ==> r[i] == Seen(t[i])
  {
    seq(|t|, i requires 0 <= i < |t| => Seen(t[i]))
  }

  /** Text without wide characters is read as it is. */
  lemma SeenLatin(t: string)
    requires Latin(t)
    ensures SeenText(t) == t
  {
  }

  /** A text that is read as the text of a key is that text exactly if it has no
      wide character. */
  lemma SeenIsText(t: string)
    requires forall i :: 0 <= i < |t| ==> t[i] as int < 0x1_0000
    requires IsBase64(SeenText(t))
    ensures IsBase64(t) <==> Latin(t)
  {
    if Latin(t) {
      SeenLatin(t);
    }
    if IsBase64(t) {
      assert forall i :: 0 <= i < 43 ==> DigitOf(t[i]) >= 0;
    }
  }

  /** And wide characters are read: U+022B passes for the letter A. */
  lemma WideLetter(c: char)
    requires c as int == 0x22b
    ensures ReadDigit(c) == DigitOf('A') == 0 && Seen(c) == 'A'
  {
    assert Trailing(1) == 1;
    assert Trailing(2) == 2;
    assert 0x22b % 0x100 == 0x2b && 0x22b / 0x100 == 2;
  }

  // ----- one group -----

  lemma OrAdds(x: int, y: int, k: nat, m: int)
    requires -0x8000_0000 <= x < 0x8000_0000 && k <= 24 && m == Pow(2, k) && m <= 0x100_0000
    requires x % m == 0 && 0 <= y < m
    ensures Or32(x, y) == x + y
  {
    hide Pow, And;
    Word(x);
    Word(y);
    OrDisjoint(x, y, k, 31);
  }

  /** The value of an octet in an array: Java's bytes are signed. */
  function Stored(b: uint8, dialect: Dialect): (v: int)
    ensures v % 0x100 == b as int && if dialect == Java then -0x80 <= v < 0x80 else 0 <= v < 0x100
  {
    if dialect == Java && b >= 0x80 then b as int - 0x100 else b as int
  }

  /** The four six-bit inputs of encode_base64 for three octets. */
  function SplitOctets(a: int, b: int, c: int): (d: seq<int>)
    requires -0x80 <= a < 0x100 && -0x80 <= b < 0x100 && -0x80 <= c < 0x100
    ensures |d| == 4
  {
    [a % 0x1_0000_0000 / 4 % 64, Or32(a * 16, b % 0x100 / 16) % 64, Or32(b * 4, c % 0x100 / 64) % 64, c % 64]
  }

  lemma SplitIsSextets(a: int, b: int, c: int)
    requires -0x80 <= a < 0x100 && -0x80 <= b < 0x100 && -0x80 <= c < 0x100
    ensures forall i: nat :: i < 4 ==>
      SplitOctets(a, b, c)[i] == Sextet(0x1_0000 * (a % 0x100) + 0x100 * (b % 0x100) + c % 0x100, i)
  {
    hide Or32, Sextet;
    assert Pow(2, 4) == 16 && Pow(2, 2) == 4;
    var u, v, w := a % 0x100, b % 0x100, c % 0x100;
    OrAdds(a * 16, v / 16, 4, 16);
    OrAdds(b * 4, w / 64, 2, 4);
    FirstSextets(u, v, w);
    LastSextets(u, v, w);
    SignLost(a, v / 16, b, w / 64, c);
  }

  /** The bits kept are the same for a signed octet. */
  lemma SignLost(a: int, x: int, b: int, y: int, c: int)
    requires -0x80 <= a < 0x100 && -0x80 <= b < 0x100 && -0x80 <= c < 0x100
    ensures a % 0x1_0000_0000 / 4 % 64 == a % 0x100 / 4 % 64
    ensures (a * 16 + x) % 64 == (a % 0x100 * 16 + x) % 64
    ensures (b * 4 + y) % 64 == (b % 0x100 * 4 + y) % 64
    ensures c % 64 == c % 0x100 % 64
  {
    FirstBits(a);
    Multiples(a % 0x100 * 16 + x, if a < 0 then -64 else 0);
    Multiples(b % 0x100 * 4 + y, if b < 0 then -16 else 0);
    Multiples(c % 0x100, if c < 0 then -4 else 0);
  }

  lemma FirstBits(a: int)
    requires -0x80 <= a < 0x100
    ensures a % 0x1_0000_0000 / 4 % 64 == a % 0x100 / 4 % 64
  {
    if a < 0 {
      assert a % 0x1_0000_0000 == a + 0x1_0000_0000 && a % 0x100 == a + 0x100;
      Multiples((a + 0x100) / 4, 0x100_0000 - 1);
    }
  }

  lemma Multiples(v: int, k: int)
    ensures (v + 64 * k) % 64 == v % 64
  {
  }

  lemma FirstSextets(a: int, b: int, c: int)
    requires 0 <= a < 0x100 && 0 <= b < 0x100 && 0 <= c < 0x100
    ensures Sextet(0x1_0000 * a + 0x100 * b + c, 0) == a / 4 % 64
    ensures Sextet(0x1_0000 * a + 0x100 * b + c, 1) == (a * 16 + b / 16) % 64
  {
    var n := 0x1_0000 * a + 0x100 * b + c;
    assert n / 0x1000 == a * 16 + b / 16;
    assert n / 0x4_0000 == a / 4;
  }

  lemma LastSextets(a: int, b: int, c: int)
    requires 0 <= a < 0x100 && 0 <= b < 0x100 && 0 <= c < 0x100
    ensures Sextet(0x1_0000 * a + 0x100 * b + c, 2) == (b * 4 + c / 64) % 64
    ensures Sextet(0x1_0000 * a + 0x100 * b + c, 3) == c % 64
  {
    var n := 0x1_0000 * a + 0x100 * b + c;
    assert n / 64 == 0x400 * a + (b * 4 + c / 64);
    assert (0x400 * a + (b * 4 + c / 64)) % 64 == (b * 4 + c / 64) % 64;
    assert n == 64 * (0x400 * a + 4 * b) + c;
  }

  /** encode_base64. */
  method EncodeBase64(dest: array<char>, at: nat, a: uint8, b: uint8, c: uint8, dialect: Dialect)
    requires at + 4 <= dest.Length
    modifies dest
    ensures forall p :: at <= p < at + 4 ==>
      dest[p] == Alphabet(Sextet(0x1_0000 * a as int + 0x100 * b as int + c as int, p - at))
    ensures forall p :: 0 <= p < dest.Length && !(at <= p < at + 4) ==> dest[p] == old(dest[p])
  {
    hide EncodeDigit, Or32, SplitOctets, Sextet;
    var input := SplitOctets(Stored(a, dialect), Stored(b, dialect), Stored(c, dialect));
    ghost var n := 0x1_0000 * a as int + 0x100 * b as int + c as int;
    SplitIsSextets(Stored(a, dialect), Stored(b, dialect), Stored(c, dialect));
    for i := 0 to 4
      invariant forall p :: at <= p < at + i ==> dest[p] == Alphabet(Sextet(n, p - at))
      invariant forall p :: 0 <= p < dest.Length && !(at <= p < at + i) ==> dest[p] == old(dest[p])
    {
      EncodeDigitIsAlphabet(input[i], dialect);
      dest[at + i] := EncodeDigit(input[i], dialect) as char;
    }
  }

  /** key_to_base64; the C text ends in a NUL, which Java's has not. */
  method KeyToBase64(base64: array<char>, key: Key, dialect: Dialect)
    requires base64.Length == if dialect == Java then 44 else 45
    modifies base64
    ensures base64[..44] == Base64(key)
    ensures dialect != Java ==> base64[44] == '\0'
  {
    hide Alphabet, Sextet, Base64;
    var i := 0;
    while i < 10
      invariant 0 <= i <= 10
      invariant forall p :: 0 <= p < 4 * i ==> base64[p] == Alphabet(Sextet(Group(key, p / 4), p % 4))
    {
      EncodeBase64(base64, 4 * i, key[3 * i], key[3 * i + 1], key[3 * i + 2], dialect);
      i := i + 1;
    }
    EncodeBase64(base64, 4 * i, key[3 * i], key[3 * i + 1], 0, dialect);
    base64[43] := '=';
    if dialect != Java {
      base64[44] := '\0';
    }
    assert base64[..44] == Base64(key) by {
      Base64Chars(key);
    }
  }

  lemma Base64Chars(key: Key)
    ensures forall j :: 0 <= j < 43 ==> Base64(key)[j] == Alphabet(Sextet(Group(key, j / 4), j % 4))
    ensures Base64(key)[43] == '='
  {
  }

  /** A left shift of a digit or of -1 in 32 bits. */
  function ShiftLeft(d: int, i: nat): (v: int)
    requires -1 <= d < 64 && i < 4
    ensures -0x4_0000 <= v < 0x100_0000
    ensures d < 0 <==> v < 0
  {
    if i == 0 then d * 0x4_0000 else if i == 1 then d * 0x1000 else if i == 2 then d * 64 else d
  }

  /** The sum of the digits of a group so far. */
  ghost function Partial(src: string, i: nat): (v: int)
    requires |src| == 4 && i <= 4
  {
    if i == 0 then 0 else Partial(src, i - 1) + ShiftLeft(DigitOf(src[i - 1]), i - 1)
  }

  ghost predicate Valid(src: string, i: nat)
    requires |src| == 4 && i <= 4
  {
    forall k :: 0 <= k < i ==> DigitOf(src[k]) >= 0
  }

  lemma PartialRoom(src: string, i: nat)
    requires |src| == 4 && i < 4 && Valid(src, i)
    ensures 0 <= Partial(src, i) < 0x100_0000
    ensures var room := if i == 0 then 0x100_0000 else if i == 1 then 0x4_0000 else if i == 2 then 0x1000 else 64;
            Partial(src, i) % room == 0
  {
    assert Partial(src, 0) == 0;
    if i >= 1 {
      assert Partial(src, 1) == DigitOf(src[0]) * 0x4_0000;
    }
    if i >= 2 {
      assert Partial(src, 2) == 0x1000 * (DigitOf(src[0]) * 64 + DigitOf(src[1]));
    }
    if i >= 3 {
      assert Partial(src, 3) == 64 * (0x1000 * DigitOf(src[0]) + 64 * DigitOf(src[1]) + DigitOf(src[2]));
    }
  }

  lemma DigitOrAdds(src: string, i: nat)
    requires |src| == 4 && i < 4 && Valid(src, i + 1)
    ensures 0 <= Partial(src, i) < 0x100_0000
    ensures Or32(Partial(src, i), ShiftLeft(DigitOf(src[i]), i)) == Partial(src, i + 1)
  {
    hide Pow, Or32;
    PartialRoom(src, i);
    var y := ShiftLeft(DigitOf(src[i]), i);
    SextetSizes(24, 18, 12, 6);
    if i == 0 {
      OrAdds(0, y, 24, 0x100_0000);
    } else if i == 1 {
      OrAdds(Partial(src, i), y, 18, 0x4_0000);
    } else if i == 2 {
      OrAdds(Partial(src, i), y, 12, 0x1000);
    } else {
      OrAdds(Partial(src, i), y, 6, 64);
    }
  }

  lemma SextetSizes(a: nat, b: nat, c: nat, d: nat)
    requires a == 24 && b == 18 && c == 12 && d == 6
    ensures Pow(2, a) == 0x100_0000 && Pow(2, b) == 0x4_0000 && Pow(2, c) == 0x1000 && Pow(2, d) == 64
  {
    hide Pow;
    TwoTo6(d);
    PowAdd(2, d, d);
    PowAdd(2, c, d);
    PowAdd(2, b, d);
  }

  lemma TwoTo6(n: nat)
    requires n == 6
    ensures Pow(2, n) == 64
  {
    assert Pow(2, 6) == 64;
  }

  lemma OrNegative(x: int, y: int)
    requires -0x8000_0000 <= x < 0x8000_0000 && -0x8000_0000 <= y < 0x8000_0000
    ensures Or32(x, y) < 0 <==> x < 0 || y < 0
    ensures Or32(x, y) == 0 <==> x == 0 && y == 0
  {
    hide Pow, And;
    Word(x);
    Word(y);
    OrSign(x, y, 31);
    OrZero(x, y, 31);
  }

  lemma PartialIsGroup(src: string)
    requires |src| == 4 && Valid(src, 4)
    ensures Partial(src, 4) == GroupValue(src[0], src[1], src[2], src[3])
  {
    assert Partial(src, 1) == ShiftLeft(DigitOf(src[0]), 0);
    assert Partial(src, 2) == Partial(src, 1) + ShiftLeft(DigitOf(src[1]), 1);
    assert Partial(src, 3) == Partial(src, 2) + ShiftLeft(DigitOf(src[2]), 2);
    assert Partial(src, 4) == Partial(src, 3) + ShiftLeft(DigitOf(src[3]), 3);
  }

  /** decode_base64: the 24-bit group, or a negative number. */
  method DecodeBase64(src: string, dialect: Dialect) returns (val: int)
    requires |src| == 4 && IsText(src, dialect)
    ensures -0x8000_0000 <= val < 0x8000_0000
    ensures var n := GroupValue(Seen(src[0]), Seen(src[1]), Seen(src[2]), Seen(src[3]));
            (n >= 0 ==> val == n) && (n < 0 <==> val < 0)
  {
    hide Or32, DecodeDigit, ShiftLeft, Partial, DigitOf, ReadDigit, Seen;
    val := 0;
    ghost var seen := SeenText(src);
    assert Partial(seen, 0) == 0 by {
      PartialStart(seen);
    }
    for i := 0 to 4
      invariant -0x8000_0000 <= val < 0x8000_0000
      invariant val < 0 <==> !Valid(seen, i)
      invariant Valid(seen, i) ==> val == Partial(seen, i)
    {
      DecodeDigitIsReadDigit(src[i], dialect);
      var d := ShiftLeft(DecodeDigit(Promote(src[i], dialect), dialect), i);
      OrNegative(val, d);
      if Valid(seen, i + 1) {
        DigitOrAdds(seen, i);
      }
      val := Or32(val, d);
    }
    if Valid(seen, 4) {
      PartialIsGroup(seen);
    }
  }

  lemma PartialStart(src: string)
    requires |src| == 4
    ensures Partial(src, 0) == 0
  {
  }

  lemma OrOctet(x: int, y: int)
    requires 0 <= x < 0x100 && 0 <= y < 0x100
    ensures 0 <= Or32(x, y) < 0x100
    ensures Or32(x, y) == 0 <==> x == 0 && y == 0
  {
    hide Pow, And;
    OrNegative(x, y);
    Narrow(-1 - x);
    Narrow(-1 - y);
    AndSign(-1 - x, -1 - y, 8, 31);
    TwoTo8(8);
  }

  /** `(uint32_t)val >> 31`. */
  function SignBit(val: int): (b: int)
    requires -0x8000_0000 <= val < 0x8000_0000
    ensures b == if val < 0 then 1 else 0
  {
    val % 0x1_0000_0000 / 0x8000_0000
  }

  /** `1 & ((ret - 1) >> 8)`: one exactly when the accumulator is zero. */
  function IsZero(ret: int): (r: int)
    requires 0 <= ret < 0x100
    ensures r == if ret == 0 then 1 else 0
  {
    (ret - 1) / 0x100 % 2
  }

  ghost predicate GroupsRead(t: string, key: seq<uint8>, n: nat)
    requires |t| == 44 && |key| == 32 && n <= 10
  {
    forall q: nat :: q < n ==> Group(key, q) == TextGroup(t, q)
  }

  ghost predicate GroupsValid(t: string, n: nat)
    requires |t| == 44 && n <= 11
  {
    forall q: nat :: q < n ==> TextGroup(t, q) >= 0
  }

  /** Group q of the text; the padding of the last counts as 'A'. */
  method DecodeGroup(base64: string, q: nat, dialect: Dialect) returns (val: int)
    requires |base64| == 44 && q < 11 && IsText(base64, dialect)
    ensures -0x8000_0000 <= val < 0x8000_0000
    ensures var n := TextGroup(SeenText(base64), q); (n >= 0 ==> val == n) && (n < 0 <==> val < 0)
  {
    hide Seen, GroupValue, TextGroup;
    var src := [base64[4 * q], base64[4 * q + 1], base64[4 * q + 2], if q == 10 then 'A' else base64[4 * q + 3]];
    val := DecodeBase64(src, dialect);
    GroupIsValue(SeenText(base64), q);
  }

  /** key_from_base64 and Key.fromBase64: true exactly on what is read as the text
      of a key, and then the key is the one whose text that is. */
  method KeyFromBase64(key: array<uint8>, base64: string, dialect: Dialect) returns (ok: bool)
    requires key.Length == 32 && IsText(base64, dialect)
    modifies key
    ensures ok <==> exists k: Key :: Base64(k) == SeenText(base64)
    ensures ok ==> Base64(key[..]) == SeenText(base64)
  {
    hide Or32, Group, TextGroup, GroupValue, Base64, TextOctet, Seen, DigitOf;
    ghost var t := SeenText(base64);
    Base64Image(t);
    if |base64| != 44 || base64[43] != '=' {
      return false;
    }
    var ret := 0;
    var i := 0;
    while i < 10
      invariant 0 <= i <= 10 && 0 <= ret < 0x100
      invariant ret == 0 <==> GroupsValid(t, i)
      invariant ret == 0 ==> GroupsRead(t, key[..], i)
    {
      ghost var before := key[..];
      var val := DecodeGroup(base64, i, dialect);
      OrOctet(ret, SignBit(val));
      ret := Or32(ret, SignBit(val));
      key[3 * i], key[3 * i + 1], key[3 * i + 2] := TextOctet(val, 0), TextOctet(val, 1), TextOctet(val, 2);
      if ret == 0 {
        GroupWritten(t, before, key[..], i);
      }
      i := i + 1;
    }
    ghost var before := key[..];
    var val := DecodeGroup(base64, 10, dialect);
    OrOctet(SignBit(val), val % 0x100);
    OrOctet(ret, Or32(SignBit(val), val % 0x100));
    ret := Or32(ret, Or32(SignBit(val), val % 0x100));
    key[3 * i], key[3 * i + 1] := TextOctet(val, 0), TextOctet(val, 1);
    ok := if dialect == Java then ret == 0 else IsZero(ret) == 1;
    Verdict(t, val % 0x100 == 0);
    if ok {
      LastGroupWritten(t, before, key[..]);
    }
  }

  lemma GroupIsValue(t: string, q: nat)
    requires |t| == 44 && q < 11
    ensures TextGroup(t, q) == GroupValue(t[4 * q], t[4 * q + 1], t[4 * q + 2], if q == 10 then 'A' else t[4 * q + 3])
  {
  }

  lemma OctetsRejoin(k: Key, q: nat, n: int)
    requires 0 <= n < 0x100_0000 && q < 11
    requires Octet(k, 3 * q) == TextOctet(n, 0) as nat && Octet(k, 3 * q + 1) == TextOctet(n, 1) as nat
    requires Octet(k, 3 * q + 2) == TextOctet(n, 2) as nat
    ensures Group(k, q) == n
  {
    OctetsMakeGroup(n);
  }

  lemma GroupWritten(t: string, before: Key, after: Key, i: nat)
    requires |t| == 44 && i < 10 && GroupsRead(t, before, i) && TextGroup(t, i) >= 0
    requires after[..3 * i] == before[..3 * i]
    requires after[3 * i] == TextOctet(TextGroup(t, i), 0)
    requires after[3 * i + 1] == TextOctet(TextGroup(t, i), 1)
    requires after[3 * i + 2] == TextOctet(TextGroup(t, i), 2)
    ensures GroupsRead(t, after, i + 1)
  {
    hide TextGroup, TextOctet;
    EarlierGroups(before, after, i);
    OctetsRejoin(after, i, TextGroup(t, i));
  }

  lemma EarlierGroups(before: Key, after: Key, i: nat)
    requires i <= 10 && after[..3 * i] == before[..3 * i]
    ensures forall q: nat :: q < i ==> Group(after, q) == Group(before, q)
  {
    forall q: nat | q < i
      ensures Group(after, q) == Group(before, q)
    {
      assert forall p :: 0 <= p < 3 * i ==> after[..3 * i][p] == after[p] && before[..3 * i][p] == before[p];
    }
  }

  lemma LastGroupWritten(t: string, before: Key, after: Key)
    requires |t| == 44 && t[43] == '=' && GroupsRead(t, before, 10)
    requires TextGroup(t, 10) >= 0 && TextGroup(t, 10) % 0x100 == 0
    requires after[..30] == before[..30]
    requires after[30] == TextOctet(TextGroup(t, 10), 0)
    requires after[31] == TextOctet(TextGroup(t, 10), 1)
    ensures Base64(after) == t
  {
    hide TextGroup, Group, Base64;
    EarlierGroups(before, after, 10);
    OctetsRejoin(after, 10, TextGroup(t, 10));
    GroupsMakeText(after, t);
  }

  lemma Verdict(t: string, low: bool)
    requires |t| == 44 && t[43] == '='
    requires TextGroup(t, 10) >= 0 ==> (low <==> TextGroup(t, 10) % 0x100 == 0)
    ensures IsBase64(t) <==> GroupsValid(t, 10) && TextGroup(t, 10) >= 0 && low
  {
    if IsBase64(t) {
      forall q: nat | q < 11
        ensures TextGroup(t, q) >= 0
      {
        TextGroupValid(t, q);
      }
      LastTextGroup(t);
    }
    if GroupsValid(t, 10) && TextGroup(t, 10) >= 0 && low {
      LastTextGroup(t);
      forall j | 0 <= j < 43
        ensures DigitOf(t[j]) >= 0
      {
        assert TextGroup(t, j / 4) >= 0;
        assert j == 4 * (j / 4) + j % 4;
      }
    }
  }
}
