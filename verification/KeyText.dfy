/** The text forms of a 32-byte key, from section 4 of RFC 4648: base64 with one
    '=' of padding, and section 8: base16.  The constant-time codecs of the
    tools and of the Android library are proved against these definitions. */
module KeyText {
  import opened MachineInts

  type Key = k: seq<uint8> | |k| == 32 witness seq(32, _ => 0)

  /** Table 1 of RFC 4648. */
  function Alphabet(d: nat): (c: char)
    requires d < 64
  {
    if d < 26 then 'A' + d as char
    else if d < 52 then 'a' + (d - 26) as char
    else if d < 62 then '0' + (d - 52) as char
    else if d == 62 then '+' else '/'
  }

  /** The place of a character in the alphabet, or -1. */
  function DigitOf(c: char): (d: int)
    ensures -1 <= d < 64
    ensures d >= 0 ==> Alphabet(d) == c
  {
    if 'A' <= c <= 'Z' then (c as int) - 65
    else if 'a' <= c <= 'z' then (c as int) - 71
    else if '0' <= c <= '9' then (c as int) + 4
    else if c == '+' then 62
    else if c == '/' then 63
    else -1
  }

  lemma DigitOfAlphabet(d: nat)
    requires d < 64
    ensures DigitOf(Alphabet(d)) == d
  {
  }

  /** Octet k of the key, followed by zeros. */
  function Octet(key: Key, k: nat): (b: nat)
    ensures b < 256
  {
    if k < 32 then key[k] as nat else 0
  }

  /** Three octets as one 24-bit group. */
  function Group(key: Key, q: nat): (n: nat)
    ensures n < 0x100_0000
  {
    0x1_0000 * Octet(key, 3 * q) + 0x100 * Octet(key, 3 * q + 1) + Octet(key, 3 * q + 2)
  }

  /** Part i, of four, of a 24-bit group. */
  function Sextet(n: nat, i: nat): (d: nat)
    requires i < 4
    ensures d < 64
  {
    if i == 0 then n / 0x4_0000 % 64
    else if i == 1 then n / 0x1000 % 64
    else if i == 2 then n / 64 % 64
    else n % 64
  }

  /** Section 4 of RFC 4648 for 32 octets. */
  function Base64(key: Key): (t: string)
    ensures |t| == 44
  {
    seq(44, j requires 0 <= j < 44 => if j == 43 then '=' else Alphabet(Sextet(Group(key, j / 4), j % 4)))
  }

  predicate IsBase64(t: string) {
    |t| == 44 && t[43] == '='
    && (forall j :: 0 <= j < 43 ==> DigitOf(t[j]) >= 0)
    && DigitOf(t[42]) % 4 == 0
  }

  /** Base64 text is canonical: it is the text of at most one key. */
  lemma Base64Injective(k: Key, l: Key)
    requires Base64(k) == Base64(l)
    ensures k == l
  {
    forall q: nat | q < 11
      ensures Group(k, q) == Group(l, q)
    {
      forall i: nat | i < 4 && 4 * q + i < 43
        ensures Sextet(Group(k, q), i) == Sextet(Group(l, q), i)
      {
        var j := 4 * q + i;
        assert j / 4 == q && j % 4 == i;
        assert Base64(k)[j] == Base64(l)[j];
        DigitOfAlphabet(Sextet(Group(k, q), i));
        DigitOfAlphabet(Sextet(Group(l, q), i));
      }
      if q == 10 {
        LastGroup(k);
        LastGroup(l);
      }
      SextetsMakeGroup(Group(k, q));
      SextetsMakeGroup(Group(l, q));
    }
    forall p | 0 <= p < 32
      ensures k[p] == l[p]
    {
      var q := p / 3;
      assert Group(k, q) == Group(l, q);
      assert p == 3 * q || p == 3 * q + 1 || p == 3 * q + 2;
      OctetsOfGroup(k, q);
      OctetsOfGroup(l, q);
    }
  }

  lemma SextetsMakeGroup(n: nat)
    requires n < 0x100_0000
    ensures n == 0x4_0000 * Sextet(n, 0) + 0x1000 * Sextet(n, 1) + 64 * Sextet(n, 2) + Sextet(n, 3)
  {
  }

  lemma GroupMakesSextets(n: nat, a: nat, b: nat, c: nat, d: nat)
    requires a < 64 && b < 64 && c < 64 && d < 64
    requires n == 0x4_0000 * a + 0x1000 * b + 64 * c + d
    ensures Sextet(n, 0) == a && Sextet(n, 1) == b && Sextet(n, 2) == c && Sextet(n, 3) == d
  {
    assert n / 0x4_0000 == a;
    assert n / 0x1000 == 64 * a + b;
    assert n / 64 == 64 * (64 * a + b) + c;
  }

  lemma OctetsOfGroup(key: Key, q: nat)
    ensures Octet(key, 3 * q) == Group(key, q) / 0x1_0000
    ensures Octet(key, 3 * q + 1) == Group(key, q) / 0x100 % 0x100
    ensures Octet(key, 3 * q + 2) == Group(key, q) % 0x100
  {
    hide Octet;
    ThreeOctets(Group(key, q), Octet(key, 3 * q), Octet(key, 3 * q + 1), Octet(key, 3 * q + 2));
  }

  lemma ThreeOctets(n: nat, a: nat, b: nat, c: nat)
    requires n == 0x1_0000 * a + 0x100 * b + c && b < 0x100 && c < 0x100
    ensures n / 0x1_0000 == a && n / 0x100 % 0x100 == b && n % 0x100 == c
  {
    assert n / 0x100 == 0x100 * a + b;
  }

  /** The last group has one octet of padding, so its third sextet is a multiple
      of four and its fourth is zero. */
  lemma LastGroup(key: Key)
    ensures Group(key, 10) % 0x100 == 0
    ensures Sextet(Group(key, 10), 2) % 4 == 0 && Sextet(Group(key, 10), 3) == 0
  {
    assert Octet(key, 32) == 0;
    PaddedSextets(Group(key, 10) / 0x100);
  }

  lemma PaddedSextets(m: nat)
    requires m < 0x1_0000
    ensures Sextet(0x100 * m, 2) % 4 == 0 && Sextet(0x100 * m, 3) == 0
  {
    assert 0x100 * m / 64 == 4 * m;
  }

  /** The texts of keys are exactly the 44-character strings over the alphabet
      with one '=' at the end and no stray bits before it. */
  lemma Base64Image(t: string)
    ensures IsBase64(t) <==> exists k: Key :: Base64(k) == t
  {
    if k: Key :| Base64(k) == t {
      LastGroup(k);
      DigitOfAlphabet(Sextet(Group(k, 10), 2));
      assert t[42] == Alphabet(Sextet(Group(k, 42 / 4), 42 % 4));
      forall j | 0 <= j < 43
        ensures DigitOf(t[j]) >= 0
      {
        DigitOfAlphabet(Sextet(Group(k, j / 4), j % 4));
      }
    }
    if IsBase64(t) {
      Base64OfUnpack(t);
    }
  }

  lemma Base64OfUnpack(t: string)
    requires IsBase64(t)
    ensures Base64(Unpack(t)) == t
  {
    var k := Unpack(t);
    forall q: nat | q < 11
      ensures Group(k, q) == TextGroup(t, q)
    {
      UnpackGroup(t, q);
    }
    GroupsMakeText(k, t);
  }

  /** Reading the text of a key gives the key. */
  lemma UnpackOfBase64(k: Key)
    ensures IsBase64(Base64(k)) && Unpack(Base64(k)) == k
  {
    hide Base64;
    Base64Image(Base64(k));
    Base64OfUnpack(Base64(k));
    Base64Injective(Unpack(Base64(k)), k);
  }

  /** The 24-bit number written by four characters, or -1 if one of them is not
      in the alphabet; the padding counts as 'A'. */
  function TextGroup(t: string, q: nat): (n: int)
    requires |t| == 44 && q < 11
    ensures -1 <= n < 0x100_0000
  {
    GroupValue(t[4 * q], t[4 * q + 1], t[4 * q + 2], if q == 10 then 'A' else t[4 * q + 3])
  }

  function GroupValue(a: char, b: char, c: char, d: char): (n: int)
    ensures -1 <= n < 0x100_0000
    ensures n == -1 <==> DigitOf(a) == -1 || DigitOf(b) == -1 || DigitOf(c) == -1 || DigitOf(d) == -1
  {
    if DigitOf(a) == -1 || DigitOf(b) == -1 || DigitOf(c) == -1 || DigitOf(d) == -1 then -1
    else 0x4_0000 * DigitOf(a) + 0x1000 * DigitOf(b) + 64 * DigitOf(c) + DigitOf(d)
  }

  function Unpack(t: string): (k: Key)
    requires IsBase64(t)
  {
    seq(32, p requires 0 <= p < 32 =>
      TextOctet(TextGroup(t, p / 3), p % 3))
  }

  function TextOctet(n: int, i: nat): uint8
    requires i < 3
  {
    if i == 0 then (n / 0x1_0000 % 0x100) as uint8
    else if i == 1 then (n / 0x100 % 0x100) as uint8
    else (n % 0x100) as uint8
  }

  lemma UnpackGroup(t: string, q: nat)
    requires IsBase64(t) && q < 11
    ensures Group(Unpack(t), q) == TextGroup(t, q)
  {
    hide Unpack, TextGroup;
    var n, k := TextGroup(t, q), Unpack(t);
    TextGroupValid(t, q);
    forall i: nat | i < 3 && 3 * q + i < 32
      ensures Octet(k, 3 * q + i) == TextOctet(n, i) as nat
    {
      assert (3 * q + i) / 3 == q && (3 * q + i) % 3 == i;
      UnpackAt(t, 3 * q + i);
    }
    assert Octet(k, 3 * q + 0) == TextOctet(n, 0) as nat;
    assert Octet(k, 3 * q + 1) == TextOctet(n, 1) as nat;
    if q < 10 {
      assert Octet(k, 3 * q + 2) == TextOctet(n, 2) as nat;
    } else {
      LastTextGroup(t);
    }
    OctetsMakeGroup(n);
  }

  lemma UnpackAt(t: string, p: nat)
    requires IsBase64(t) && p < 32
    ensures Unpack(t)[p] == TextOctet(TextGroup(t, p / 3), p % 3)
  {
  }

  lemma TextGroupValid(t: string, q: nat)
    requires IsBase64(t) && q < 11
    ensures TextGroup(t, q) >= 0
  {
    assert DigitOf('A') == 0;
  }

  lemma LastTextGroup(t: string)
    requires |t| == 44 && TextGroup(t, 10) >= 0
    ensures TextGroup(t, 10) % 0x100 == 0 <==> DigitOf(t[42]) % 4 == 0
  {
    assert DigitOf('A') == 0;
    hide DigitOf;
    var d := DigitOf(t[42]);
    LowDigit(0x400 * DigitOf(t[40]) + 0x10 * DigitOf(t[41]), d);
    assert TextGroup(t, 10) == 0x100 * (0x400 * DigitOf(t[40]) + 0x10 * DigitOf(t[41])) + 64 * d;
  }

  lemma LowDigit(high: int, d: int)
    ensures (0x100 * high + 64 * d) % 0x100 == 0 <==> d % 4 == 0
  {
    var q, r := d / 4, d % 4;
    assert 0x100 * high + 64 * d == 0x100 * (high + q) + 64 * r;
  }

  lemma OctetsMakeGroup(n: int)
    requires 0 <= n < 0x100_0000
    ensures n == 0x1_0000 * TextOctet(n, 0) as nat + 0x100 * TextOctet(n, 1) as nat + TextOctet(n, 2) as nat
  {
  }

  /** A text whose groups are those of the key is the text of the key. */
  lemma GroupsMakeText(k: Key, t: string)
    requires |t| == 44 && t[43] == '='
    requires forall q: nat :: q < 11 ==> Group(k, q) == TextGroup(t, q)
    ensures Base64(k) == t
  {
    forall j: nat | j < 43
      ensures Base64(k)[j] == t[j]
    {
      assert Group(k, j / 4) == TextGroup(t, j / 4);
      TextSextet(t, j);
    }
  }

  lemma TextSextet(t: string, j: nat)
    requires |t| == 44 && j < 43 && TextGroup(t, j / 4) >= 0
    ensures Alphabet(Sextet(TextGroup(t, j / 4), j % 4)) == t[j]
  {
    hide Sextet, Alphabet;
    var q := j / 4;
    assert j % 4 == 3 ==> q != 10;
    GroupMakesSextets(TextGroup(t, q), DigitOf(t[4 * q]), DigitOf(t[4 * q + 1]), DigitOf(t[4 * q + 2]),
                      DigitOf(if q == 10 then 'A' else t[4 * q + 3]));
  }

  // ----- base16 -----

  function HexDigit(d: nat): (c: char)
    requires d < 16
  {
    if d < 10 then '0' + d as char else 'a' + (d - 10) as char
  }

  /** The value of a hexadecimal digit of either case, or -1. */
  function HexValue(c: char): (d: int)
    ensures -1 <= d < 16
  {
    if '0' <= c <= '9' then (c as int) - 48
    else if 'A' <= c <= 'F' then (c as int) - 55
    else if 'a' <= c <= 'f' then (c as int) - 87
    else -1
  }

  function Lower(c: char): char {
    if 'A' <= c <= 'Z' then ((c as int) + 32) as char else c
  }

  function Hex(key: Key): (t: string)
    ensures |t| == 64
  {
    seq(64, j requires 0 <= j < 64 =>
      HexDigit(if j % 2 == 0 then key[j / 2] as nat / 16 else key[j / 2] as nat % 16))
  }

  /** The key that a text of hexadecimal digits writes: the text in lower case is
      the key's own. */
  predicate HexOf(key: Key, t: string) {
    |t| == 64 && forall j :: 0 <= j < 64 ==> Lower(t[j]) == Hex(key)[j]
  }

  predicate IsHex(t: string) {
    |t| == 64 && forall j :: 0 <= j < 64 ==> HexValue(t[j]) >= 0
  }

  lemma HexDigitValue(d: nat)
    requires d < 16
    ensures HexValue(HexDigit(d)) == d && Lower(HexDigit(d)) == HexDigit(d)
  {
  }

  /** A hexadecimal text determines its key. */
  lemma HexUnique(k: Key, l: Key, t: string)
    requires HexOf(k, t) && HexOf(l, t)
    ensures k == l
  {
    forall p | 0 <= p < 32
      ensures k[p] == l[p]
    {
      assert 2 * p / 2 == p && 2 * p % 2 == 0 && (2 * p + 1) / 2 == p && (2 * p + 1) % 2 == 1;
      assert Lower(t[2 * p]) == Hex(k)[2 * p] == Hex(l)[2 * p];
      assert Lower(t[2 * p + 1]) == Hex(k)[2 * p + 1] == Hex(l)[2 * p + 1];
      HexDigitValue(k[p] as nat / 16);
      HexDigitValue(k[p] as nat % 16);
      HexDigitValue(l[p] as nat / 16);
      HexDigitValue(l[p] as nat % 16);
    }
  }
}
