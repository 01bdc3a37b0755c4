/** The constant-time base16 codec of encoding.c and Key.java. */
module HexCodec {
  import opened MachineInts
  import opened Radix
  import opened Words
  import opened KeyText
  import opened KeyCodec

  lemma {:induction false} XorDisjoint(x: int, y: int, k: nat, n: nat)
    requires Fits(x, n) && Fits(y, n) && k <= n
    requires x % Pow(2, k) == 0 && 0 <= y < Pow(2, k)
    ensures Xor(x, y, n) == x + y
    decreases n
  {
    if k == 0 {
      XorZero(x, n);
    } else {
      EvenHalf(x, y, Pow(2, k - 1));
      XorDisjoint(x / 2, y / 2, k - 1, n - 1);
    }
  }

  /** The high parts of an exclusive or are the exclusive or of the high parts. */
  lemma {:induction false} XorHigh(x: int, y: int, k: nat, n: nat)
    requires Fits(x, n) && Fits(y, n) && k <= n
    ensures Fits(x / Pow(2, k), n - k) && Fits(y / Pow(2, k), n - k)
    ensures Xor(x, y, n) / Pow(2, k) == Xor(x / Pow(2, k), y / Pow(2, k), n - k)
    decreases n
  {
    if k == 0 {
      assert Pow(2, 0) == 1;
    } else {
      XorHalf(x, y, n);
      var m := Pow(2, k - 1);
      assert Pow(2, k) == 2 * m;
      hide Xor, Pow;
      XorHigh(x / 2, y / 2, k - 1, n - 1);
      Halved(x, m);
      Halved(y, m);
      Halved(Xor(x, y, n), m);
    }
  }

  lemma XorHalf(x: int, y: int, n: nat)
    requires n > 0 && Fits(x, n) && Fits(y, n)
    ensures Fits(x / 2, n - 1) && Fits(y / 2, n - 1)
    ensures Xor(x, y, n) / 2 == Xor(x / 2, y / 2, n - 1)
  {
    ParityCancels(x, y, Xor(x / 2, y / 2, n - 1), Xor(x, y, n));
  }

  // ----- encoding -----

  /** The character formula of key_to_hex and toHex for one nibble: unsigned
      words cut to a char in C, signed words in Java. */
  function EncodeNibble(x: int, dialect: Dialect): (c: int)
    requires 0 <= x < 16
  {
    if dialect == Java then 87 + x + And32((x - 10) / 0x100, -39)
    else (87 + x + And32((x - 10) % 0x1_0000_0000 / 0x100, -39)) % 0x100
  }

  lemma EncodeNibbleIsHexDigit(x: int, dialect: Dialect)
    requires 0 <= x < 16
    ensures EncodeNibble(x, dialect) == HexDigit(x) as int
  {
    hide Pow, And;
    Word(-39);
    AndMasks(-39, 31);
    Word(0xff_ffff);
    TwoTo24(24);
    AndLow(-39, 24, 31);
    assert And32(0xff_ffff, -39) == 0xff_ffd9;
  }

  lemma HexPair(key: Key, i: nat, dialect: Dialect)
    requires i < 32
    ensures var b := Stored(key[i], dialect);
            && EncodeNibble(b / 16 % 16, dialect) == Hex(key)[2 * i] as int
            && EncodeNibble(b % 16, dialect) == Hex(key)[2 * i + 1] as int
  {
    hide EncodeNibble, HexDigit;
    var b, u := Stored(key[i], dialect), key[i] as int;
    assert b / 16 % 16 == u / 16 && b % 16 == u % 16;
    EncodeNibbleIsHexDigit(u / 16, dialect);
    EncodeNibbleIsHexDigit(u % 16, dialect);
    assert 2 * i / 2 == i && 2 * i % 2 == 0 && (2 * i + 1) / 2 == i && (2 * i + 1) % 2 == 1;
  }

  /** key_to_hex and toHex. */
  method KeyToHex(hex: array<char>, key: Key, dialect: Dialect)
    requires hex.Length == if dialect == Java then 64 else 65
    modifies hex
    ensures hex[..64] == Hex(key)
    ensures dialect != Java ==> hex[64] == '\0'
  {
    hide And32, EncodeNibble, HexDigit, Hex, Stored;
    var i := 0;
    while i < 32
      invariant 0 <= i <= 32
      invariant forall p :: 0 <= p < 2 * i ==> hex[p] == Hex(key)[p]
    {
      var b := Stored(key[i], dialect);
      HexPair(key, i, dialect);
      hex[2 * i] := EncodeNibble(b / 16 % 16, dialect) as char;
      hex[2 * i + 1] := EncodeNibble(b % 16, dialect) as char;
      i := i + 1;
    }
    if dialect != Java {
      hex[64] := '\0';
    }
  }

  // ----- decoding -----

  /** `c ^ 48`, for an unsigned octet or a Java char. */
  function Number(c: int): (v: int)
    requires 0 <= c < 0x1_0000
  {
    WordSizes();
    Xor(c, 48, 31)
  }

  /** 0xff where the number is below ten. */
  function NumberMask(c: int): (m: int)
    requires 0 <= c < 0x1_0000
    ensures 0 <= m < 0x100
  {
    (Number(c) - 10) / 0x100 % 0x100
  }

  lemma NumberRange(c: int)
    requires 0 <= c < 0x100
    ensures 0 <= Number(c) < 0x100
    ensures Number(c) < 10 <==> 48 <= c < 58
    ensures 48 <= c < 58 ==> Number(c) == c - 48
  {
    hide Pow, Xor;
    Word(c);
    Word(48);
    var v := Number(c);
    TwoTo8(8);
    XorHigh(c, 48, 8, 31);
    assert v / 0x100 == Xor(0, 0, 23);
    Zero23();
    XorZero(0, 23);
    assert 0 <= v < 0x100;
    XorCommutes(c, 48, 31);
    XorCancelsLeft(48, c, 31);
    assert Xor(48, v, 31) == c;
    TwoTo4(4);
    if v < 10 {
      XorDisjoint(48, v, 4, 31);
    }
    if 48 <= c < 58 {
      Word(c - 48);
      XorDisjoint(48, c - 48, 4, 31);
      XorCancelsLeft(48, c - 48, 31);
    }
  }

  lemma TwoTo4(n: nat)
    requires n == 4
    ensures Pow(2, n) == 16
  {
    assert Pow(2, 4) == 16;
  }

  lemma Zero23()
    ensures Fits(0, 23) && Fits(-1, 23)
  {
    hide Pow;
    PowPositive(23);
  }

  lemma {:induction false} PowPositive(n: nat)
    ensures Pow(2, n) >= 1
  {
    if n > 0 {
      PowPositive(n - 1);
    }
  }

  /** `(c & ~32) - 55`, cut to an octet in C: `& ~32` clears the bit that tells
      the two cases of a letter apart. */
  function Letter(c: int, dialect: Dialect): (v: int)
    requires 0 <= c < 0x1_0000
    ensures -0x40 <= v < 0x1_0000 && (dialect != Java || c < 0x100 ==> v < 0x100)
  {
    var upper := if c / 32 % 2 == 1 then c - 32 else c;
    if dialect == Java then upper - 55 else (upper - 55) % 0x100
  }

  /** `((v - 10) ^ (v - 16)) >> 8`, cut to an octet: 0xff where 10 <= v < 16. */
  function LetterMask(v: int): (m: int)
    requires -0x40 <= v < 0x1_0000
    ensures 0 <= m < 0x100
  {
    WordSizes();
    Xor(v - 10, v - 16, 31) / 0x100 % 0x100
  }

  lemma LetterMaskSelects(v: int)
    requires -0x40 <= v < 0x100
    ensures LetterMask(v) == if 10 <= v < 16 then 0xff else 0
  {
    hide Pow, Xor;
    var x, y := v - 10, v - 16;
    Word(x);
    Word(y);
    TwoTo8(8);
    XorHigh(x, y, 8, 31);
    HighWords(x / 0x100, y / 0x100);
  }

  lemma HighWords(p: int, q: int)
    requires -1 <= q <= p <= 0
    requires Fits(p, 23) && Fits(q, 23)
    ensures p == q ==> Xor(p, q, 23) == 0
    ensures p == 0 && q == -1 ==> Xor(p, q, 23) == -1
  {
    hide Pow, Xor;
    XorZero(p, 23);
    XorZero(q, 23);
    Zero23();
    XorCommutes(p, q, 23);
    XorCancelsLeft(p, 0, 23);
  }

  lemma AndOctetMask(m: int, v: int)
    requires m == 0 || m == 0xff
    requires -0x100 <= v < 0x100
    ensures And32(m, v) == if m == 0 then 0 else v % 0x100
  {
    hide Pow, And;
    Narrow(v);
    Narrow(m);
    Narrow(0xff);
    TwoTo8(8);
    AndMasks(v, 31);
    AndLow(v, 8, 31);
  }

  lemma OrWithZero(x: int)
    requires 0 <= x < 0x100
    ensures Or32(x, 0) == x && Or32(0, x) == x
  {
    hide Or32;
    TwoTo8(8);
    assert Pow(2, 0) == 1;
    OrAdds(x, 0, 0, 1);
    OrAdds(0, x, 8, 0x100);
  }

  lemma LetterRange(c: char, dialect: Dialect)
    requires c as int < 0x100
    ensures 10 <= Letter(c as int, dialect) < 16 <==> HexValue(c) >= 10
    ensures HexValue(c) >= 10 ==> Letter(c as int, dialect) == HexValue(c)
  {
    var v := c as int;
    var k := v / 32;
    assert k == 0 || k == 1 || k == 2 || k == 3 || k == 4 || k == 5 || k == 6 || k == 7;
  }

  lemma NumberMaskSelects(c: char)
    requires c as int < 0x100
    ensures 0 <= Number(c as int) < 0x100
    ensures NumberMask(c as int) == if 0 <= HexValue(c) < 10 then 0xff else 0
    ensures 0 <= HexValue(c) < 10 ==> Number(c as int) == HexValue(c)
  {
    hide Number;
    NumberRange(c as int);
  }

  // ----- wide characters -----

  /** The low part of an exclusive or is that of the low parts. */
  lemma {:induction false} XorLow(x: int, y: int, k: nat, n: nat)
    requires Fits(x, n) && Fits(y, n) && k <= n && Fits(x % Pow(2, k), n) && Fits(y % Pow(2, k), n)
    ensures Xor(x, y, n) % Pow(2, k) == Xor(x % Pow(2, k), y % Pow(2, k), n) % Pow(2, k)
    decreases n
  {
    if k == 0 {
      assert Pow(2, 0) == 1;
    } else {
      var m := Pow(2, k - 1);
      assert Pow(2, k) == 2 * m;
      LowHalf(x, m);
      LowHalf(y, m);
      XorUnfold(x, y, n);
      XorUnfold(x % (2 * m), y % (2 * m), n);
      hide Xor, Pow;
      XorLow(x / 2, y / 2, k - 1, n - 1);
      LowBitSplits(Xor(x, y, n), m);
      LowBitSplits(Xor(x % (2 * m), y % (2 * m), n), m);
    }
  }

  lemma LowHalf(x: int, m: int)
    requires m > 0
    ensures x % (2 * m) % 2 == x % 2 && x % (2 * m) / 2 == x / 2 % m
  {
    LowBitSplits(x, m);
  }

  lemma XorUnfold(x: int, y: int, n: nat)
    requires n > 0 && Fits(x, n) && Fits(y, n)
    ensures Fits(x / 2, n - 1) && Fits(y / 2, n - 1)
    ensures Xor(x, y, n) % 2 == (x % 2 + y % 2) % 2 && Xor(x, y, n) / 2 == Xor(x / 2, y / 2, n - 1)
  {
    ParityCancels(x, y, Xor(x / 2, y / 2, n - 1), Xor(x, y, n));
    Parity(x, y, Xor(x / 2, y / 2, n - 1));
  }

  lemma Parity(x: int, y: int, q: int)
    ensures ((x + y) % 2 + 2 * q) % 2 == (x % 2 + y % 2) % 2
  {
  }

  lemma WideNumber(c: int)
    requires 0x100 <= c < 0x1_0000
    ensures Number(c) / 0x100 == c / 0x100
    ensures Number(c) % 0x100 == Number(c % 0x100) < 0x100
    ensures Number(c) % 0x100 < 10 <==> 48 <= c % 0x100 < 58
  {
    hide Pow, Xor;
    Word(c);
    Word(48);
    Word(c % 0x100);
    TwoTo8(8);
    XorHigh(c, 48, 8, 31);
    XorZero(c / 0x100, 23);
    XorLow(c, 48, 8, 31);
    NumberRange(c % 0x100);
  }

  lemma XorSelf(x: int, n: nat)
    requires Fits(x, n)
    ensures Fits(0, n) && Xor(x, x, n) == 0
  {
    hide Xor;
    XorZero(x, n);
    XorCancelsLeft(x, 0, n);
  }

  /** `x ^ (x - 1)` are the lowest bit of x and the zeros below it. */
  lemma {:induction false} XorTrailing(x: nat, n: nat)
    requires x > 0 && Fits(x, n)
    ensures Fits(x - 1, n) && Xor(x, x - 1, n) == 2 * Trailing(x) - 1
    decreases n
  {
    assert n > 0 by {
      assert Pow(2, 0) == 1;
    }
    XorStep(x, x - 1, n);
    hide Xor, Pow;
    if x % 2 == 1 {
      assert (x - 1) / 2 == x / 2;
      XorSelf(x / 2, n - 1);
    } else {
      assert (x - 1) / 2 == x / 2 - 1;
      XorTrailing(x / 2, n - 1);
    }
  }

  lemma {:induction false} TrailingOfOctet(x: nat, n: nat, m: nat)
    requires 0 < x < m && m == Pow(2, n)
    ensures 2 * Trailing(x) <= m
    decreases n
  {
    assert n > 0;
    var half := Pow(2, n - 1);
    assert m == 2 * half;
    hide Pow;
    if x % 2 == 0 {
      assert 0 < x / 2 < half;
      TrailingOfOctet(x / 2, n - 1, half);
      assert Trailing(x) == 2 * Trailing(x / 2);
    } else {
      assert Trailing(x) == 1;
    }
  }

  /** The letter mask of a wide character. */
  lemma WideLetterMask(v: int)
    requires 0xc9 <= v < 0x1_0000
    ensures LetterMask(v) == if (v - 10) % 0x100 < 6 then 2 * Trailing((v - 10) / 0x100) - 1 else 0
    ensures (v - 10) % 0x100 < 6 ==> 2 * Trailing((v - 10) / 0x100) <= 0x100
  {
    hide Pow, Xor, Trailing;
    var x, y, h := v - 10, v - 16, (v - 10) / 0x100;
    Word(x);
    Word(y);
    TwoTo8(8);
    XorHigh(x, y, 8, 31);
    if x % 0x100 < 6 {
      assert y / 0x100 == h - 1;
      XorTrailing(h, 23);
      TrailingOfOctet(h, 8, 0x100);
    } else {
      assert y / 0x100 == h;
      XorSelf(h, 23);
    }
  }

  /** The bits of a letter that the mask lets through. */
  function Spill(v: int): (r: int)
    requires 0xc9 <= v < 0x1_0000
    ensures 0 <= r < 0x100
  {
    WideLetterMask(v);
    if (v - 10) % 0x100 < 6 then v % (2 * Trailing((v - 10) / 0x100)) else 0
  }

  lemma SpillIsMasked(v: int)
    requires 0xc9 <= v < 0x1_0000
    ensures And32(LetterMask(v), v) == Spill(v)
  {
    hide Pow, And, LetterMask;
    Word(v);
    WideLetterMask(v);
    if (v - 10) % 0x100 < 6 {
      var h := (v - 10) / 0x100;
      TwoTo8(8);
      var k := TrailingIsPower(h, 8);
      TwiceTrailing(h, k);
      Word(2 * Trailing(h) - 1);
      AndLow(v, k + 1, 31);
    } else {
      AndMasks(v, 31);
    }
  }

  lemma TwiceTrailing(h: nat, k: nat)
    requires h > 0 && Trailing(h) == Pow(2, k)
    ensures 2 * Trailing(h) == Pow(2, k + 1)
  {
    hide Trailing;
  }

  /** An octet sees only the low octet of a word. */
  lemma {:induction false} AndOfLow(x: int, y: int, k: nat, n: nat)
    requires Fits(x, n) && Fits(y, n) && k <= n && 0 <= x < Pow(2, k)
    ensures Fits(y % Pow(2, k), n) && And(x, y, n) == And(x, y % Pow(2, k), n)
    decreases n
  {
    if k == 0 {
      assert Pow(2, 0) == 1;
      PowPositive(n);
      AndMasks(y, n);
      AndMasks(0, n);
    } else {
      var m := Pow(2, k - 1);
      assert Pow(2, k) == 2 * m;
      LowHalf(y, m);
      AndUnfold(x, y, n);
      AndOfLow(x / 2, y / 2, k - 1, n - 1);
      AndUnfold(x, y % (2 * m), n);
    }
  }

  lemma AndUnfold(x: int, y: int, n: nat)
    requires n > 0 && Fits(x, n) && Fits(y, n)
    ensures Fits(x / 2, n - 1) && Fits(y / 2, n - 1)
    ensures And(x, y, n) == (x % 2) * (y % 2) + 2 * And(x / 2, y / 2, n - 1)
  {
  }

  /** What is read of a character: the value of a digit, 0 where there is none, and
      above 0xFF the bits that masks of neither zeros nor ones let through. */
  function NibbleRead(c: char): (v: int)
    requires c as int < 0x1_0000
    ensures 0 <= v < 0x100
  {
    if c as int < 0x100 then (if HexValue(c) >= 0 then HexValue(c) else 0)
    else WideNibble(c as int)
  }

  function WideNibble(c: int): (v: int)
    requires 0x100 <= c < 0x1_0000
    ensures 0 <= v < 0x100
  {
    var high, low := c / 0x100, c % 0x100;
    var mask := if 48 <= low < 58 then high - 1 else high;
    NumberRange(low);
    MaskedOctet(mask, Number(low));
    LetterOfWide(c);
    OrOctet(And32(mask, Number(low)), Spill(Letter(c, Java)));
    Or32(And32(mask, Number(low)), Spill(Letter(c, Java)))
  }

  lemma LetterOfWide(c: int)
    requires 0x100 <= c < 0x1_0000
    ensures 0xc9 <= Letter(c, Java) < 0x1_0000
  {
  }

  lemma WideValue(c: int)
    requires 0x100 <= c < 0x1_0000
    ensures 0 <= Number(c) < 0x1_0000 && 0xc9 <= Letter(c, Java) < 0x1_0000
    ensures Or32(And32(NumberMask(c), Number(c)), And32(LetterMask(Letter(c, Java)), Letter(c, Java))) == WideNibble(c)
  {
    hide Pow, And, Or32, Number, Letter, LetterMask, Spill;
    WideNumber(c);
    LetterOfWide(c);
    SpillIsMasked(Letter(c, Java));
    var n, h := Number(c) % 0x100, c / 0x100;
    assert Number(c) == 0x100 * h + n;
    var m := NumberMask(c);
    assert m == if n < 10 then h - 1 else h;
    Word(m);
    Word(Number(c));
    TwoTo8(8);
    AndOfLow(m, Number(c), 8, 31);
  }

  /** What fromHex takes for a digit: besides the digits, nearly every character
      above 0xFF, where the masks are not all zeros or all ones. */
  predicate HexAccepted(c: char) {
    if c as int < 0x100 then HexValue(c) >= 0 else !(0x130 <= c as int < 0x13a)
  }

  /** So an accepted text is hexadecimal exactly if it has no wide character. */
  lemma AcceptedIsHex(t: string)
    requires |t| == 64 && forall j :: 0 <= j < 64 ==> HexAccepted(t[j])
    ensures IsHex(t) <==> Latin(t)
  {
    if IsHex(t) {
      assert forall j :: 0 <= j < 64 ==> HexValue(t[j]) >= 0;
    }
  }

  /** And wide characters are accepted, U+0100 the first. */
  lemma WideHexDigit(c: char)
    requires c as int == 0x100
    ensures HexAccepted(c) && HexValue(c) < 0
  {
  }

  lemma WideMasks(c: int)
    requires 0x100 <= c < 0x1_0000
    ensures NumberMask(c) == 0 && LetterMask(Letter(c, Java)) == 0 <==> 0x130 <= c < 0x13a
  {
    hide Number, LetterMask;
    WideNumber(c);
    var n, h := Number(c) % 0x100, c / 0x100;
    assert Number(c) == 0x100 * h + n;
    assert (Number(c) - 10) / 0x100 == if n < 10 then h - 1 else h;
    assert NumberMask(c) == if n < 10 then h - 1 else h;
    if 0x130 <= c < 0x13a {
      assert c / 32 == 9;
      LetterMaskSelects(Letter(c, Java));
    }
  }

  lemma {:induction false} AndBelow(x: int, y: int, n: nat)
    requires 0 <= x && Fits(x, n) && Fits(y, n)
    ensures 0 <= And(x, y, n) <= x
    decreases n
  {
    if n > 0 {
      AndBelow(x / 2, y / 2, n - 1);
      assert (x % 2) * (y % 2) <= x % 2 by {
        assert y % 2 == 0 || y % 2 == 1;
      }
    }
  }

  lemma MaskedOctet(m: int, v: int)
    requires 0 <= m < 0x100 && -0x100 <= v < 0x1_0000
    ensures 0 <= And32(m, v) < 0x100
  {
    hide Pow, And;
    Word(m);
    Word(v);
    AndBelow(m, v, 31);
  }

  lemma NumberBound(c: int)
    requires 0 <= c < 0x1_0000
    ensures 0 <= Number(c) < 0x1_0000
  {
    hide Number;
    if c < 0x100 {
      NumberRange(c);
    } else {
      WideNumber(c);
    }
  }

  lemma ValueOfDigit(c: char, dialect: Dialect, num: int, num0: int, alpha: int, alpha0: int)
    requires c as int < 0x100 && 0 <= num < 0x1_0000 && -0x40 <= alpha < 0x1_0000
    requires num == Number(c as int) && num0 == NumberMask(c as int)
    requires alpha == Letter(c as int, dialect) && alpha0 == LetterMask(alpha)
    ensures Or32(num0, alpha0) == if HexValue(c) >= 0 then 0xff else 0
    ensures Or32(And32(num0, num), And32(alpha0, alpha)) == if HexValue(c) >= 0 then HexValue(c) else 0
  {
    hide And32, Or32, Number, LetterMask, NumberMask, Letter;
    var v := c as int;
    NumberRange(v);
    NumberMaskSelects(c);
    LetterMaskSelects(alpha);
    LetterRange(c, dialect);
    AndOctetMask(num0, num);
    AndOctetMask(alpha0, alpha);
    OrWithZero(num0);
    OrWithZero(alpha0);
    OrWithZero(And32(num0, num));
    OrWithZero(And32(alpha0, alpha));
  }

  /** One hexadecimal digit: what is read of it, and an error word that is zero
      exactly on what is accepted. */
  method DecodeNibble(c: char, dialect: Dialect) returns (error: int, val: int)
    requires IsChar(c, dialect)
    ensures 0 <= error < if dialect == Java then 0x100_0000 else 0x100
    ensures error == 0 <==> HexAccepted(c)
    ensures 0 <= val < 0x100 && val == NibbleRead(c)
  {
    hide And32, Or32, Number, LetterMask, NumberMask, Letter, HexValue, WideNibble;
    var v := c as int;
    NumberBound(v);
    var num := Number(v);
    var num0 := NumberMask(v);
    var alpha := Letter(v, dialect);
    var alpha0 := LetterMask(alpha);
    MaskedOctet(num0, num);
    MaskedOctet(alpha0, alpha);
    OrOctet(num0, alpha0);
    OrOctet(And32(num0, num), And32(alpha0, alpha));
    if v < 0x100 {
      ValueOfDigit(c, dialect, num, num0, alpha, alpha0);
    } else {
      WideMasks(v);
      WideValue(v);
    }
    var either := Or32(num0, alpha0) - 1;
    error := if dialect == Java then Shift8(either, Java) else either / 0x100 % 0x100;
    val := Or32(And32(num0, num), And32(alpha0, alpha));
  }

  /** The octet read of two characters. */
  function OctetRead(a: char, b: char): (v: int)
    requires a as int < 0x1_0000 && b as int < 0x1_0000
    ensures 0 <= v < 0x100
  {
    Or32(16 * NibbleRead(a), NibbleRead(b)) % 0x100
  }

  /** The body of the loop: two digits make an octet, and `ret` gathers the errors. */
  method ReadOctet(a: char, b: char, ret0: int, dialect: Dialect) returns (ret: int, octet: uint8)
    requires IsChar(a, dialect) && IsChar(b, dialect)
    requires 0 <= ret0 < 0x8000_0000 && (dialect != Java ==> ret0 < 0x100)
    ensures 0 <= ret < 0x8000_0000 && (dialect != Java ==> ret < 0x100)
    ensures ret == 0 <==> ret0 == 0 && HexAccepted(a) && HexAccepted(b)
    ensures octet as int == OctetRead(a, b)
  {
    hide Or32, HexAccepted, NibbleRead;
    var e1, high := DecodeNibble(a, dialect);
    ret := Gather(ret0, e1, dialect);
    var acc := high * 16;
    var e2, low := DecodeNibble(b, dialect);
    ret := Gather(ret, e2, dialect);
    octet := (Or32(acc, low) % 0x100) as uint8;
  }

  /** `ret |= error` */
  method Gather(ret0: int, error: int, dialect: Dialect) returns (ret: int)
    requires 0 <= ret0 < 0x8000_0000 && (dialect != Java ==> ret0 < 0x100)
    requires 0 <= error < if dialect == Java then 0x100_0000 else 0x100
    ensures 0 <= ret < 0x8000_0000 && (dialect != Java ==> ret < 0x100)
    ensures ret == 0 <==> ret0 == 0 && error == 0
  {
    hide Or32;
    OrNegative(ret0, error);
    if dialect != Java {
      OrOctet(ret0, error);
    }
    ret := Or32(ret0, error);
  }

  /** key_from_hex and Key.fromHex: true exactly on 64 characters that are accepted,
      and octet i of the key is what is read of the characters 2i and 2i + 1.  Without
      wide characters that makes the text a hexadecimal text of the key. */
  method KeyFromHex(key: array<uint8>, hex: string, dialect: Dialect) returns (ok: bool)
    requires key.Length == 32 && IsText(hex, dialect)
    modifies key
    ensures ok <==> |hex| == 64 && forall j :: 0 <= j < 64 ==> HexAccepted(hex[j])
    ensures |hex| == 64 ==> forall i :: 0 <= i < 32 ==> key[i] as int == OctetRead(hex[2 * i], hex[2 * i + 1])
    ensures Latin(hex) ==> (ok <==> IsHex(hex)) && (ok ==> HexOf(key[..], hex))
  {
    hide Or32, HexValue, OctetRead;
    if |hex| != 64 {
      return false;
    }
    var ret := 0;
    var i := 0;
    while i < 32
      invariant 0 <= i <= 32 && 0 <= ret < 0x8000_0000 && (dialect != Java ==> ret < 0x100)
      invariant ret == 0 <==> forall j :: 0 <= j < 2 * i ==> HexAccepted(hex[j])
      invariant forall k :: 0 <= k < i ==> key[k] as int == OctetRead(hex[2 * k], hex[2 * k + 1])
    {
      var octet;
      ret, octet := ReadOctet(hex[2 * i], hex[2 * i + 1], ret, dialect);
      key[i] := octet;
      i := i + 1;
    }
    ok := if dialect == Java then ret == 0 else IsZero(ret) == 1;
    if ok && Latin(hex) {
      OctetsMakeHex(key[..], hex);
    }
  }

  lemma OctetOfDigits(a: char, b: char)
    requires HexValue(a) >= 0 && HexValue(b) >= 0 && a as int < 0x100 && b as int < 0x100
    ensures OctetRead(a, b) == 16 * HexValue(a) + HexValue(b)
  {
    hide Or32;
    NibblesJoin(HexValue(a), HexValue(b));
  }

  lemma OctetsMakeHex(key: Key, t: string)
    requires |t| == 64 && Latin(t) && forall j :: 0 <= j < 64 ==> HexAccepted(t[j])
    requires forall i :: 0 <= i < 32 ==> key[i] as int == OctetRead(t[2 * i], t[2 * i + 1])
    ensures IsHex(t) && HexOf(key, t)
  {
    hide HexValue, OctetRead, HexOf;
    forall j | 0 <= j < 64
      ensures HexValue(t[j]) == Nibble(key[j / 2], j % 2)
    {
      var i := j / 2;
      assert HexAccepted(t[2 * i]) && HexAccepted(t[2 * i + 1]);
      OctetOfDigits(t[2 * i], t[2 * i + 1]);
      assert j == 2 * i || j == 2 * i + 1;
    }
    NibblesMakeHex(key, t);
  }

  function Nibble(b: uint8, i: int): int {
    if i == 0 then b as int / 16 else b as int % 16
  }

  lemma NibblesJoin(high: int, low: int)
    requires 0 <= high < 16 && 0 <= low < 16
    ensures Or32(high * 16, low) == high * 16 + low
  {
    hide Or32;
    TwoTo4(4);
    OrAdds(high * 16, low, 4, 16);
  }

  lemma NibblesMakeHex(key: Key, t: string)
    requires |t| == 64
    requires forall j :: 0 <= j < 64 ==> HexValue(t[j]) == Nibble(key[j / 2], j % 2)
    ensures HexOf(key, t)
  {
    forall j | 0 <= j < 64
      ensures Lower(t[j]) == Hex(key)[j]
    {
      assert HexValue(t[j]) == Nibble(key[j / 2], j % 2);
      LowerIsHexDigit(t[j]);
    }
  }

  lemma LowerIsHexDigit(c: char)
    requires HexValue(c) >= 0
    ensures HexDigit(HexValue(c)) == Lower(c)
  {
  }

  /** A key written in base64 by one program is read back by any other. */
  method Base64RoundTrip(key: Key, writer: Dialect, reader: Dialect) returns (again: seq<uint8>)
    ensures again == key
  {
    var t := new char[if writer == Java then 44 else 45];
    KeyToBase64(t, key, writer);
    var text := t[..44];
    Base64IsLatin(key);
    SeenLatin(text);
    var k := new uint8[32];
    var ok := KeyFromBase64(k, text, reader);
    assert ok;
    again := k[..];
    Base64Injective(again, key);
  }

  /** And likewise in base16. */
  method HexRoundTrip(key: Key, writer: Dialect, reader: Dialect) returns (again: seq<uint8>)
    ensures again == key
  {
    var t := new char[if writer == Java then 64 else 65];
    KeyToHex(t, key, writer);
    var text := t[..64];
    HexIsHex(key);
    var k := new uint8[32];
    var ok := KeyFromHex(k, text, reader);
    assert ok;
    again := k[..];
    HexUnique(again, key, text);
  }

  lemma Base64IsLatin(key: Key)
    ensures Latin(Base64(key))
  {
  }

  lemma HexIsHex(key: Key)
    ensures IsHex(Hex(key)) && HexOf(key, Hex(key)) && Latin(Hex(key))
  {
    forall j | 0 <= j < 64
      ensures HexValue(Hex(key)[j]) >= 0 && Lower(Hex(key)[j]) == Hex(key)[j] && Hex(key)[j] as int < 0x100
    {
      HexDigitValue(if j % 2 == 0 then key[j / 2] as nat / 16 else key[j / 2] as nat % 16);
    }
  }
}
