/** Number and blank handling that the configuration printer and reader share. */
module ConfigText {
  import opened KeyText
  import opened AddressGrammar

  /** char_is_space, and what strtoul skips. */
  predicate IsSpace(c: char) {
    9 <= c as int <= 13 || c == ' '
  }

  predicate Solid(s: string) {
    forall i :: 0 <= i < |s| ==> !IsSpace(s[i])
  }

  function RemoveSpaces(s: string): (r: string) {
    if s == [] then []
    else RemoveSpaces(s[..|s| - 1]) + if IsSpace(s[|s| - 1]) then [] else [s[|s| - 1]]
  }

  lemma {:induction false} RemoveSpacesSolid(s: string)
    requires Solid(s)
    ensures RemoveSpaces(s) == s
  {
    if s != [] {
      RemoveSpacesSolid(s[..|s| - 1]);
    }
  }

  lemma {:induction false} RemoveSpacesJoin(a: string, b: string)
    ensures RemoveSpaces(a + b) == RemoveSpaces(a) + RemoveSpaces(b)
  {
    if b == [] {
      assert a + b == a;
    } else {
      var c := b[..|b| - 1];
      assert (a + b)[..|a + b| - 1] == a + c;
      RemoveSpacesJoin(a, c);
    }
  }

  // ----- numbers -----

  const ULONG_MAX: nat := 0xffff_ffff_ffff_ffff

  /** The end of the run of digits that begins at p. */
  function DigitRun(s: string, p: nat, hex: bool): (q: nat)
    requires p <= |s|
    ensures p <= q <= |s|
    ensures forall i :: p <= i < q ==> if hex then IsHexadecimal(s[i]) else IsDecimal(s[i])
    ensures q < |s| ==> if hex then !IsHexadecimal(s[q]) else !IsDecimal(s[q])
    decreases |s| - p
  {
    if p < |s| && (if hex then IsHexadecimal(s[p]) else IsDecimal(s[p])) then DigitRun(s, p + 1, hex) else p
  }

  function SkipSpaces(s: string, p: nat): (q: nat)
    requires p <= |s|
    ensures p <= q <= |s| && (forall i :: p <= i < q ==> IsSpace(s[i])) && (q < |s| ==> !IsSpace(s[q]))
    decreases |s| - p
  {
    if p < |s| && IsSpace(s[p]) then SkipSpaces(s, p + 1) else p
  }

  /** strtoul in base 10 or 16: the value and where it ends.  Blanks and a sign
      may come first, and a value too large is cut to ULONG_MAX. */
  function Strtoul(s: string, hex: bool): (r: (nat, nat))
    ensures r.0 <= ULONG_MAX && r.1 <= |s|
  {
    var p := SkipSpaces(s, 0);
    var sign := p < |s| && (s[p] == '-' || s[p] == '+');
    var a := if sign then p + 1 else p;
    var prefix := hex && a + 2 < |s| && s[a] == '0' && (s[a + 1] == 'x' || s[a + 1] == 'X') && IsHexadecimal(s[a + 2]);
    var b := if prefix then a + 2 else a;
    var q := DigitRun(s, b, hex);
    if q == b then (0, 0)
    else
      var v := RunValue(s, b, q, hex);
      var cut := if v > ULONG_MAX then ULONG_MAX else v;
      (if sign && s[p] == '-' && v <= ULONG_MAX then (ULONG_MAX + 1 - cut) % (ULONG_MAX + 1) else cut, q)
  }

  /** The number written by a run of digits. */
  function RunValue(s: string, b: nat, q: nat, hex: bool): (v: nat)
    requires b <= q <= |s| && forall i :: b <= i < q ==> if hex then IsHexadecimal(s[i]) else IsDecimal(s[i])
  {
    var x := s[b..q];
    assert forall i :: 0 <= i < |x| ==> x[i] == s[b + i];
    NumberNonnegative(x, hex);
    if hex then HexNumber(x) else DecimalValue(x)
  }

  lemma {:induction false} NumberNonnegative(s: string, hex: bool)
    requires if hex then HexDigits(s) else Digits(s)
    ensures if hex then HexNumber(s) >= 0 else DecimalValue(s) >= 0
  {
    if s != [] {
      NumberNonnegative(s[..|s| - 1], hex);
      if hex {
        assert IsHexadecimal(s[|s| - 1]);
      }
    }
  }

  function DecimalDigit(d: nat): (c: char)
    requires d < 10
    ensures IsDecimal(c) && c as int == 48 + d
  {
    (48 + d) as char
  }

  /** `%u`. */
  function Decimal(n: nat): (s: string)
    ensures |s| > 0
  {
    (if n < 10 then [] else Decimal(n / 10)) + [DecimalDigit(n % 10)]
  }

  /** `%x`. */
  function Hexadecimal(n: nat): (s: string)
    ensures |s| > 0
  {
    (if n < 16 then [] else Hexadecimal(n / 16)) + [HexDigit(n % 16)]
  }

  lemma {:induction false} DecimalReads(n: nat)
    ensures Digits(Decimal(n)) && DecimalValue(Decimal(n)) == n
  {
    hide DecimalDigit, DecimalValue, Digits;
    var high := if n < 10 then [] else Decimal(n / 10);
    DecimalAppend(high, DecimalDigit(n % 10));
    if n >= 10 {
      DecimalReads(n / 10);
    } else {
      DecimalEmpty();
    }
  }

  lemma DecimalEmpty()
    ensures Digits([]) && DecimalValue([]) == 0
  {
  }

  lemma DecimalAppend(high: string, c: char)
    ensures DecimalValue(high + [c]) == 10 * DecimalValue(high) + c as int - 48
    ensures Digits(high + [c]) <==> Digits(high) && IsDecimal(c)
  {
    var s := high + [c];
    assert s[..|s| - 1] == high;
    assert forall i :: 0 <= i < |high| ==> s[i] == high[i];
    assert s[|high|] == c;
  }

  lemma {:induction false} HexadecimalReads(n: nat)
    ensures HexDigits(Hexadecimal(n)) && HexNumber(Hexadecimal(n)) == n
  {
    var s := Hexadecimal(n);
    HexDigitValue(n % 16);
    assert IsHexadecimal(HexDigit(n % 16));
    if n >= 16 {
      HexadecimalReads(n / 16);
      assert s[..|s| - 1] == Hexadecimal(n / 16);
      assert forall i :: 0 <= i < |s| - 1 ==> s[i] == Hexadecimal(n / 16)[i];
    } else {
      assert s[..|s| - 1] == [];
    }
  }

  /** strtoul reads back what `%u` prints. */
  lemma StrtoulDecimal(n: nat)
    requires n <= ULONG_MAX
    ensures Strtoul(Decimal(n), false) == (n, |Decimal(n)|)
    ensures IsDecimal(Decimal(n)[0]) && Solid(Decimal(n)) && Digits(Decimal(n))
  {
    hide Decimal, DecimalValue;
    DecimalReads(n);
    var s := Decimal(n);
    assert IsDecimal(s[0]);
    assert SkipSpaces(s, 0) == 0;
    assert DigitRun(s, 0, false) == |s|;
    assert s[0..|s|] == s;
  }

  /** And what `0x%x` prints. */
  lemma StrtoulHex(n: nat)
    requires n <= ULONG_MAX
    ensures Strtoul("0x" + Hexadecimal(n), true) == (n, |Hexadecimal(n)| + 2)
    ensures HexDigits(Hexadecimal(n))
  {
    hide Hexadecimal, HexNumber;
    HexadecimalReads(n);
    var h := Hexadecimal(n);
    var s := "0x" + h;
    assert s[0] == '0' && s[1] == 'x' && s[2] == h[0];
    assert SkipSpaces(s, 0) == 0;
    assert forall i :: 2 <= i < |s| ==> s[i] == h[i - 2];
    assert DigitRun(s, 2, true) == |s|;
    assert s[2..|s|] == h;
  }
}
