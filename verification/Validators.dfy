/** The is_valid_* checks of highlighter.c.  A span of the text is given by its
    two ends; the text is followed by a NUL, which a scanner may look at. */
module Validators {
  import opened AddressGrammar
  import opened KeyText

  /** The character at k, or the NUL after the text. */
  function At(t: string, k: nat): char
    requires k <= |t|
  {
    if k < |t| then t[k] else '\0'
  }

  /** is_valid_key: the span is the base64 text of a key. */
  method IsValidKey(t: string, lo: nat, hi: nat) returns (r: bool)
    requires lo <= hi <= |t|
    ensures r <==> exists k: Key :: Base64(k) == t[lo..hi]
  {
    ghost var x := t[lo..hi];
    Base64Image(x);
    if hi - lo != 44 || t[lo + 43] != '=' {
      return false;
    }
    assert forall j :: 0 <= j < 44 ==> x[j] == t[lo + j];
    for i := 0 to 42
      invariant forall j :: 0 <= j < i ==> DigitOf(x[j]) >= 0
    {
      var c := t[lo + i];
      if !IsDecimal(c) && !IsAlphabet(c) && c != '/' && c != '+' {
        return false;
      }
    }
    var c := t[lo + 42];
    r := IsLastDigit(c);
    LastDigit(c);
  }

  predicate IsLastDigit(c: char) {
    match c
    case 'A' | 'E' | 'I' | 'M' | 'Q' | 'U' | 'Y' | 'c' | 'g' | 'k' | 'o' | 's' | 'w' | '4' | '8' | '0' => true
    case _ => false
  }

  /** The sixteen characters allowed before the padding are those whose two low
      bits are clear. */
  lemma LastDigit(c: char)
    ensures IsLastDigit(c) <==> DigitOf(c) >= 0 && DigitOf(c) % 4 == 0
  {
  }

  /** is_valid_ipv4. */
  method IsValidIpv4(t: string, lo: nat, hi: nat) returns (r: bool)
    requires lo <= hi <= |t|
    ensures r <==> Ipv4(t[lo..hi])
  {
    hide Dotted, DecimalOctet;
    var i, pos := 0, lo;
    while i < 4 && pos < hi
      invariant 0 <= i <= 4 && lo <= pos <= hi + 1
      invariant Ipv4(t[lo..hi]) <==> i < 4 && pos <= hi && Dotted(t[pos..hi], 4 - i)
    {
      var j, val := LeadingNumber(t, pos, hi);
      ghost var x := t[pos..hi];
      assert x[..j] == t[pos..pos + j];
      DottedHead(x, 4 - i, j);
      OctetByParts(x[..j]);
      assert j > 0 ==> x[..j][0] == t[pos];
      if j == 0 || (j > 1 && t[pos] == '0') || val > 255 {
        return false;
      }
      if pos + j == hi && i == 3 {
        return true;
      }
      if At(t, pos + j) != '.' {
        return false;
      }
      assert pos + j < hi ==> x[j + 1..] == t[pos + j + 1..hi];
      pos := pos + j + 1;
      i := i + 1;
    }
    if pos == hi {
      DottedNonempty(t[pos..hi], 4 - i);
    }
    return false;
  }

  lemma OctetByParts(x: string)
    ensures DecimalOctet(x) <==> 1 <= |x| <= 3 && Digits(x) && !(|x| > 1 && x[0] == '0') && DecimalValue(x) <= 255
  {
  }

  lemma DottedNonempty(x: string, n: nat)
    requires x == []
    ensures !Dotted(x, n)
  {
  }

  /** At most three leading digits and the number they write. */
  method LeadingNumber(t: string, pos: nat, hi: nat) returns (j: nat, val: int)
    requires pos <= hi <= |t|
    ensures j <= 3 && pos + j <= hi && Digits(t[pos..pos + j]) && val == DecimalValue(t[pos..pos + j])
    ensures j == 3 || pos + j == hi || !IsDecimal(t[pos + j])
    ensures 0 <= val < 1000
  {
    j, val := 0, 0;
    while j < 3 && pos + j < hi && IsDecimal(t[pos + j])
      invariant 0 <= j <= 3 && pos + j <= hi
      invariant Digits(t[pos..pos + j]) && val == DecimalValue(t[pos..pos + j])
      invariant 0 <= val < if j == 0 then 1 else if j == 1 then 10 else if j == 2 then 100 else 1000
    {
      assert t[pos..pos + j + 1][..j] == t[pos..pos + j];
      val := 10 * val + t[pos + j] as int - 48;
      j := j + 1;
    }
  }

  /** is_valid_uint with min <= max, for values of at most ten characters. */
  method IsValidUint(t: string, lo: nat, hi: nat, hex: bool, min: nat, max: nat) returns (r: bool)
    requires lo <= hi <= |t|
    ensures r <==> Number(t[lo..hi], hex, min, max)
  {
    ghost var x := t[lo..hi];
    if hi - lo > 10 || lo == hi {
      return false;
    }
    var ok, val;
    if hex && hi - lo > 2 && t[lo] == '0' && t[lo + 1] == 'x' {
      ok, val := ReadHex(t, lo + 2, hi);
      assert x[2..] == t[lo + 2..hi];
    } else {
      ok, val := ReadDecimal(t, lo, hi);
    }
    r := ok && val <= max && val >= min;
  }

  method ReadHex(t: string, lo: nat, hi: nat) returns (ok: bool, val: int)
    requires lo <= hi <= |t|
    ensures ok <==> HexDigits(t[lo..hi])
    ensures ok ==> val == HexNumber(t[lo..hi])
  {
    hide HexNumber, HexValue;
    val := 0;
    NothingYet(t, lo);
    for i := lo to hi
      invariant HexDigits(t[lo..i]) && val == HexNumber(t[lo..i])
    {
      if !IsHexadecimal(t[i]) {
        assert t[lo..hi][i - lo] == t[i];
        return false, val;
      }
      HexNext(t, lo, i);
      val := 16 * val + HexValue(t[i]);
    }
    return true, val;
  }

  lemma NothingYet(t: string, lo: nat)
    requires lo <= |t|
    ensures HexNumber(t[lo..lo]) == 0 && DecimalValue(t[lo..lo]) == 0
  {
  }

  lemma HexNext(t: string, lo: nat, i: nat)
    requires lo <= i < |t|
    ensures HexNumber(t[lo..i + 1]) == 16 * HexNumber(t[lo..i]) + HexValue(t[i])
    ensures HexDigits(t[lo..i + 1]) <==> HexDigits(t[lo..i]) && IsHexadecimal(t[i])
  {
    assert t[lo..i + 1] == t[lo..i] + [t[i]];
    assert t[lo..i + 1][..i - lo] == t[lo..i];
  }

  lemma DecimalNext(t: string, lo: nat, i: nat)
    requires lo <= i < |t|
    ensures DecimalValue(t[lo..i + 1]) == 10 * DecimalValue(t[lo..i]) + t[i] as int - 48
    ensures Digits(t[lo..i + 1]) <==> Digits(t[lo..i]) && IsDecimal(t[i])
  {
    assert t[lo..i + 1] == t[lo..i] + [t[i]];
    assert t[lo..i + 1][..i - lo] == t[lo..i];
  }

  method ReadDecimal(t: string, lo: nat, hi: nat) returns (ok: bool, val: int)
    requires lo <= hi <= |t|
    ensures ok <==> Digits(t[lo..hi])
    ensures ok ==> val == DecimalValue(t[lo..hi])
  {
    hide DecimalValue;
    val := 0;
    NothingYet(t, lo);
    for i := lo to hi
      invariant Digits(t[lo..i]) && val == DecimalValue(t[lo..i])
    {
      if !IsDecimal(t[i]) {
        assert t[lo..hi][i - lo] == t[i];
        return false, val;
      }
      DecimalNext(t, lo, i);
      val := 10 * val + t[i] as int - 48;
    }
    return true, val;
  }

  /** is_valid_hostname. */
  method IsValidHostname(t: string, lo: nat, hi: nat) returns (r: bool)
    requires lo <= hi <= |t|
    ensures r <==> Hostname(t[lo..hi])
  {
    ghost var x := t[lo..hi];
    var digits, entities := 0, hi - lo;
    if hi - lo > 63 || lo == hi {
      return false;
    }
    if t[lo] == '-' || t[hi - 1] == '-' {
      return false;
    }
    if t[lo] == '.' || t[hi - 1] == '.' {
      return false;
    }
    for i := lo to hi
      invariant 0 <= digits <= i - lo - (hi - lo - entities) && entities <= hi - lo
      invariant forall k :: 0 <= k < i - lo ==> HostnameChar(x[k])
      invariant digits == i - lo - (hi - lo - entities) <==>
                (forall k :: 0 <= k < i - lo ==> IsDecimal(x[k]) || x[k] == '.')
    {
      assert x[i - lo] == t[i];
      if IsDecimal(t[i]) {
        digits := digits + 1;
      } else if t[i] == '.' {
        entities := entities - 1;
      } else if !IsAlphabet(t[i]) && t[i] != '-' {
        return false;
      }
    }
    r := digits != entities;
  }

  /** is_valid_scope. */
  method IsValidScope(t: string, lo: nat, hi: nat) returns (r: bool)
    requires lo <= hi <= |t|
    ensures r <==> Scope(t[lo..hi])
  {
    if hi - lo > 64 || lo == hi {
      return false;
    }
    for i := lo to hi
      invariant forall k :: 0 <= k < i - lo ==> ScopeChar(t[lo..hi][k])
    {
      var c := t[i];
      if !IsAlphabet(c) && !IsDecimal(c) && c != '_' && c != '=' && c != '+' && c != '.' && c != '-' {
        assert t[lo..hi][i - lo] == t[i];
        return false;
      }
    }
    return true;
  }

  /** is_valid_network, with the same addition as is_valid_ipv6. */
  method IsValidNetwork(t: string, lo: nat, hi: nat) returns (r: bool)
    requires lo <= hi <= |t|
    ensures r <==> Network(t[lo..hi]) || (At(t, hi) == ':' && Unfinished(t[lo..hi]))
  {
    hide Ipv4, Ipv6, Unfinished;
    ghost var x := t[lo..hi];
    for i := lo to hi
      invariant forall k :: 0 <= k < i - lo ==> x[k] != '/'
    {
      if t[i] == '/' {
        ghost var p := i - lo;
        assert x[..p] == t[lo..i] && x[p + 1..] == t[i + 1..hi];
        FirstSlash(x, p);
        UnfinishedHasNoSlash(x, p);
        if hi - i - 1 > 3 || i + 1 == hi {
          return false;
        }
        var ok, cidr := ReadDecimal(t, i + 1, hi);
        if !ok {
          return false;
        }
        var v4 := IsValidIpv4(t, lo, i);
        if v4 {
          return cidr <= 32;
        }
        var v6 := IsValidIpv6(t, lo, i);
        if v6 {
          return cidr <= 128;
        }
        return false;
      }
    }
    assert forall k :: 0 <= k < |x| ==> x[k] != '/';
    var v4 := IsValidIpv4(t, lo, hi);
    var v6 := IsValidIpv6(t, lo, hi);
    return v4 || v6;
  }

  /** A network with a slash is cut at its first one. */
  lemma FirstSlash(x: string, p: nat)
    requires p < |x| && x[p] == '/' && forall k :: 0 <= k < p ==> x[k] != '/'
    ensures Network(x) <==> PrefixLength(x[p + 1..], if Ipv4(x[..p]) then 32 else 128) && (Ipv4(x[..p]) || Ipv6(x[..p]))
  {
    hide Ipv4, Ipv6, PrefixLength;
    if Ipv4(x) {
      NoSlashIn4(x, p);
    }
    if Ipv6(x) {
      Ipv6Chars(x, p);
    }
    if q: nat :| NetworkAt(x, q) {
      if q > p {
        assert x[..q][p] == '/';
        if Ipv4(x[..q]) {
          NoSlashIn4(x[..q], p);
        } else {
          Ipv6Chars(x[..q], p);
        }
      }
      assert q == p;
    }
    assert Ipv4(x[..p]) || Ipv6(x[..p]) ==>
      (NetworkAt(x, p) <==> PrefixLength(x[p + 1..], if Ipv4(x[..p]) then 32 else 128));
  }

  lemma UnfinishedHasNoSlash(x: string, p: nat)
    requires p < |x| && x[p] == '/'
    ensures !Unfinished(x)
  {
    if Unfinished(x) {
      var m: nat :| m <= 7 && Heads(x + ":", m);
      HeadsChars(x + ":", m, p);
    }
  }

  lemma NoSlashIn4(x: string, p: nat)
    requires Ipv4(x) && p < |x|
    ensures x[p] != '/'
  {
    DottedChars(x, 4, p);
  }

  /** What the rest of the text may be after i groups. */
  ghost predicate Rest(x: string, i: nat, seen: bool)
    requires i <= 8
  {
    if seen then exists w: nat :: w <= 8 - i && Pieces(x, w)
    else Pieces(x, 8 - i) || Gap(x, 8 - i)
  }

  /** Groups that the scanner takes for the beginning of more, when a colon
      follows the span. */
  ghost predicate More(x: string, i: nat)
    requires i <= 8
  {
    exists m: nat :: m <= 7 - i && Heads(x + ":", m)
  }

  /** is_valid_ipv6.  An address; or, when a colon follows the span, which no
      caller lets happen, some groups without an end. */
  method IsValidIpv6(t: string, lo: nat, hi: nat) returns (r: bool)
    requires lo <= hi <= |t|
    ensures r <==> Ipv6(t[lo..hi]) || (At(t, hi) == ':' && Unfinished(t[lo..hi]))
  {
    hide Onward, Ipv6, Unfinished;
    ghost var x := t[lo..hi];
    ghost var colon := At(t, hi) == ':';
    ghost var goal := Ipv6(x) || (colon && Unfinished(x));
    var pos, seen := lo, false;
    if hi - lo < 2 {
      TooShort(x);
      return false;
    }
    OnwardStart(x, colon);
    if t[pos] == ':' {
      pos := pos + 1;
      if t[pos] != ':' {
        return false;
      }
      assert x[1..] == t[pos..hi];
    }
    assert x[0..] == x;
    if t[hi - 1] == ':' && t[hi - 2] != ':' {
      return false;
    }
    var i := 0;
    while pos < hi
      invariant lo <= pos <= hi + 1 && pos != hi && 0 <= i
      invariant pos < hi ==> i < 8 && (goal <==> Onward(t[pos..hi], i, seen, colon))
      invariant pos > hi ==> goal
      decreases hi - pos
    {
      ghost var y := t[pos..hi];
      if t[pos] == ':' && !seen {
        seen := true;
        pos := pos + 1;
        OnwardGap(y, i, colon);
        assert y[1..] == t[pos..hi];
        if pos == hi {
          break;
        }
        if i == 7 {
          return false;
        }
        i := i + 1;
        continue;
      }
      var stop, verdict, next := ScanGroup(t, pos, hi, i, seen, goal);
      if stop {
        return verdict;
      }
      pos, i := next, i + 1;
    }
    return true;
  }

  /** One group of is_valid_ipv6: a verdict, or where the next one begins. */
  method ScanGroup(t: string, pos: nat, hi: nat, i: nat, seen: bool, ghost goal: bool)
    returns (stop: bool, verdict: bool, next: nat)
    requires pos < hi <= |t| && i < 8 && (t[pos] == ':' ==> seen)
    requires hi >= 2 && (t[hi - 1] == ':' ==> t[hi - 2] == ':')
    requires goal <==> Onward(t[pos..hi], i, seen, At(t, hi) == ':')
    ensures stop ==> (verdict <==> goal)
    ensures !stop ==> i < 7 && pos < next <= hi + 1 && next != hi
    ensures !stop && next < hi ==> (goal <==> Onward(t[next..hi], i + 1, seen, At(t, hi) == ':'))
    ensures !stop && next > hi ==> goal
  {
    hide Onward, Ipv4;
    ghost var y := t[pos..hi];
    stop, verdict, next := true, false, pos;
    var j := LeadingHex(t, pos, hi);
    OnwardGroup(y, i, j, seen, At(t, hi) == ':');
    if j == 0 {
      return;
    }
    if pos + j == hi && (seen || i == 7) {
      return true, true, pos;
    }
    if i == 7 {
      return;
    }
    if At(t, pos + j) != ':' {
      if At(t, pos + j) != '.' || (i < 6 && !seen) {
        return;
      }
      verdict := IsValidIpv4(t, pos, hi);
      return;
    }
    assert pos + j < hi ==> y[j + 1..] == t[pos + j + 1..hi];
    assert IsHexadecimal(y[j - 1]);
    stop, next := false, pos + j + 1;
  }

  /** What the rest of the text may be, with a colon after it or without. */
  ghost predicate Onward(x: string, i: nat, seen: bool, colon: bool)
    requires i <= 8
  {
    Rest(x, i, seen) || (colon && !seen && More(x, i))
  }

  lemma OnwardStart(x: string, colon: bool)
    requires |x| >= 2
    ensures var goal := Ipv6(x) || (colon && Unfinished(x));
            && (x[0] == ':' && x[1] != ':' ==> !goal)
            && (x[0] == ':' && x[1] == ':' ==> (goal <==> Onward(x[1..], 0, false, colon)))
            && (x[0] != ':' ==> (goal <==> Onward(x, 0, false, colon)))
            && (x[|x| - 1] == ':' && x[|x| - 2] != ':' ==> !goal)
  {
    hide Rest, More, Ipv6, Unfinished;
    Start(x);
    StartMore(x);
    if x[|x| - 1] == ':' && x[|x| - 2] != ':' {
      LoneColonLast(x);
    }
  }

  lemma OnwardGap(y: string, i: nat, colon: bool)
    requires |y| > 0 && y[0] == ':' && i < 8
    ensures y[1..] == [] ==> Onward(y, i, false, colon)
    ensures y[1..] != [] && i == 7 ==> !Onward(y, i, false, colon)
    ensures y[1..] != [] && i < 7 ==> (Onward(y, i, false, colon) <==> Onward(y[1..], i + 1, true, colon))
  {
    hide Rest, More;
    AfterGap(y, i);
    NoMoreAtColon(y, i);
  }

  lemma OnwardGroup(y: string, i: nat, j: nat, seen: bool, colon: bool)
    requires HexRun(y, j) && i < 8 && (|y| > 0 && y[0] == ':' ==> seen)
    ensures j == 0 ==> !Onward(y, i, seen, colon)
    ensures j > 0 && j == |y| ==> (Onward(y, i, seen, colon) <==> seen || i == 7 || colon)
    ensures 0 < j < |y| && i == 7 ==> !Onward(y, i, seen, colon)
    ensures 0 < j < |y| && i < 7 && y[j] == ':' ==>
      (Onward(y, i, seen, colon) <==> Onward(y[j + 1..], i + 1, seen, colon))
    ensures 0 < j < |y| && i < 7 && y[j] != ':' ==> (Onward(y, i, seen, colon) <==> (seen || i == 6) && Ipv4(y))
    ensures Ipv4(y) ==> j < |y| && y[j] == '.'
  {
    hide Rest, More, Ipv4;
    AfterGroup(y, i, j, seen);
    MoreGroups(y, i, j);
  }

  lemma StartMore(x: string)
    requires |x| >= 2
    ensures x[0] == ':' ==> !Unfinished(x)
    ensures x[0] == ':' && x[1] == ':' ==> !More(x[1..], 0)
    ensures x[0] != ':' ==> (Unfinished(x) <==> More(x, 0))
    ensures x[|x| - 1] == ':' && x[|x| - 2] != ':' ==> !Unfinished(x)
  {
    hide Heads, HexGroup;
    NoMoreAtColon(x, 0);
    if x[1] == ':' {
      NoMoreAtColon(x[1..], 0);
    }
    if Unfinished(x) {
      UnfinishedEnd(x);
    }
  }

  lemma UnfinishedEnd(x: string)
    requires Unfinished(x)
    ensures x[|x| - 1] != ':'
  {
    hide Heads, HexGroup;
    var m: nat :| m <= 7 && Heads(x + ":", m);
    HeadsNonempty(x + ":", m);
    HeadsEnd(x + ":", m);
    assert (x + ":")[|x| - 1] == x[|x| - 1];
  }

  lemma NoMoreAtColon(x: string, i: nat)
    requires i <= 8
    ensures |x| > 0 && x[0] == ':' ==> !More(x, i)
  {
    hide Heads, HexGroup;
    if |x| > 0 && x[0] == ':' && More(x, i) {
      var m: nat :| m <= 7 - i && Heads(x + ":", m);
      HeadsNonempty(x + ":", m);
      HeadsStart(x + ":", m);
    }
  }

  /** A group of j digits, followed by a colon, begins more groups. */
  lemma MoreGroups(y: string, i: nat, j: nat)
    requires HexRun(y, j) && i < 8
    ensures j == 0 ==> !More(y, i)
    ensures j > 0 && j == |y| ==> (More(y, i) <==> i < 7)
    ensures i == 7 ==> !More(y, i)
    ensures 0 < j < |y| && y[j] != ':' ==> !More(y, i)
    ensures 0 < j < |y| && i < 7 && y[j] == ':' ==> (More(y, i) <==> More(y[j + 1..], i + 1))
  {
    hide Heads, HexGroup;
    var z := y + ":";
    assert forall k :: 0 <= k < |y| ==> z[k] == y[k];
    assert z[|y|] == ':' && HexRun(z, j);
    if More(y, i) {
      var m: nat :| m <= 7 - i && Heads(z, m);
      HeadsNonempty(z, m);
      HeadsHead(z, m, j);
      if 0 < j < |y| {
        assert z[j + 1..] == y[j + 1..] + ":";
        assert m - 1 <= 7 - (i + 1) && Heads(y[j + 1..] + ":", m - 1);
      }
    }
    if j > 0 && j == |y| && i < 7 {
      HeadsHead(z, 1, j);
      HeadsNone(z[j + 1..]);
      assert Heads(z, 1);
    }
    if 0 < j < |y| && i < 7 && y[j] == ':' && More(y[j + 1..], i + 1) {
      var m: nat :| m <= 7 - (i + 1) && Heads(y[j + 1..] + ":", m);
      assert z[j + 1..] == y[j + 1..] + ":";
      HeadsHead(z, m + 1, j);
      assert Heads(z, m + 1);
    }
  }

  method LeadingHex(t: string, pos: nat, hi: nat) returns (j: nat)
    requires pos <= hi <= |t|
    ensures pos + j <= hi && HexRun(t[pos..hi], j)
  {
    j := 0;
    while j < 4 && pos + j < hi && IsHexadecimal(t[pos + j])
      invariant 0 <= j <= 4 && pos + j <= hi
      invariant forall i :: 0 <= i < j ==> IsHexadecimal(t[pos..hi][i])
    {
      j := j + 1;
    }
  }

  lemma TooShort(x: string)
    requires |x| < 2
    ensures !Ipv6(x) && !Unfinished(x)
  {
    if Ipv6(x) {
      LongEnough(x);
    }
  }

  lemma LongEnough(x: string)
    requires Ipv6(x)
    ensures |x| >= 2
  {
    Ipv6IsGap(x);
    if Pieces(x, 8) {
      var k :| 0 < k < |x| && HexGroup(x[..k]) && x[k] == ':' && Pieces(x[k + 1..], 7);
    } else if |x| > 0 && x[0] != ':' && Gap(x, 8) {
      GapNotOne(x, 8);
    }
  }

  lemma Start(x: string)
    requires |x| >= 2
    ensures x[0] == ':' && x[1] != ':' ==> !Ipv6(x)
    ensures x[0] == ':' && x[1] == ':' ==> (Ipv6(x) <==> Rest(x[1..], 0, false))
    ensures x[0] != ':' ==> (Ipv6(x) <==> Rest(x, 0, false))
  {
    hide Gap, Pieces, AtMost, Ipv6;
    Ipv6IsGap(x);
    if x[0] == ':' {
      NoPiecesAtColon(x, 8);
      assert x[..2] == [x[0], x[1]];
      if x[1] == ':' {
        NoPiecesAtColon(x[1..], 8);
        GapAtColon(x[1..], 8);
        assert x[1..][1..] == x[2..];
      }
    } else {
      assert x[..2][0] == x[0];
    }
  }

  lemma NoPiecesAtColon(x: string, w: nat)
    requires |x| > 0 && x[0] == ':'
    ensures !Pieces(x, w)
  {
    hide Ipv4;
    assert HexRun(x, 0);
    if w > 0 {
      PiecesHead(x, w, 0);
      if Ipv4(x) {
        QuadEnds(x, 0);
      }
    }
  }

  lemma GapAtColon(x: string, b: nat)
    requires |x| > 0 && x[0] == ':'
    ensures Gap(x, b) <==> b > 0 && AtMost(x[1..], b - 1)
  {
    hide AtMost;
    if Gap(x, b) {
      var j := GapSplit(x, b);
    }
  }

  /** The empty group. */
  lemma AfterGap(y: string, i: nat)
    requires |y| > 0 && y[0] == ':' && i < 8
    ensures y[1..] == [] ==> Rest(y, i, false)
    ensures y[1..] != [] && i == 7 ==> !Rest(y, i, false)
    ensures y[1..] != [] && i < 7 ==> (Rest(y, i, false) <==> Rest(y[1..], i + 1, true))
  {
    hide Gap, Pieces;
    NoPiecesAtColon(y, 8 - i);
    GapAtColon(y, 8 - i);
    if i == 7 {
      NoPieces(y[1..]);
    }
  }

  lemma NoPieces(x: string)
    ensures !Pieces(x, 0)
  {
  }

  /** A group of j digits. */
  lemma AfterGroup(y: string, i: nat, j: nat, seen: bool)
    requires HexRun(y, j) && i < 8 && (|y| > 0 && y[0] == ':' ==> seen)
    ensures j == 0 ==> !Rest(y, i, seen)
    ensures j > 0 && j == |y| ==> (Rest(y, i, seen) <==> seen || i == 7)
    ensures j > 0 && j < |y| && i == 7 ==> !Rest(y, i, seen)
    ensures j > 0 && j < |y| && i < 7 && y[j] == ':' ==> (Rest(y, i, seen) <==> Rest(y[j + 1..], i + 1, seen))
    ensures j > 0 && j < |y| && i < 7 && y[j] != ':' ==> (Rest(y, i, seen) <==> (seen || i == 6) && Ipv4(y))
    ensures Ipv4(y) ==> j < |y| && y[j] == '.'
  {
    hide Gap, Pieces, Ipv4;
    if Ipv4(y) {
      QuadEnds(y, j);
    }
    if seen {
      AfterGroupSeen(y, i, j);
    } else {
      PiecesHead(y, 8 - i, j);
      if j > 0 {
        GapHead(y, 8 - i, j);
      } else {
        NoGap(y, 8 - i);
      }
      if i == 7 && 0 < j < |y| && y[j] == ':' {
        NoGap0(y[j + 1..]);
      }
    }
  }

  lemma NoGap0(x: string)
    ensures !Gap(x, 0)
  {
  }

  lemma NoGap(x: string, b: nat)
    requires HexRun(x, 0) && (|x| > 0 ==> x[0] != ':')
    ensures !Gap(x, b)
  {
    if Gap(x, b) {
      var j := GapSplit(x, b);
      GroupEnds(x, j, 0);
    }
  }

  lemma AfterGroupSeen(y: string, i: nat, j: nat)
    requires HexRun(y, j) && i < 8
    requires Ipv4(y) ==> 0 < j < |y| && y[j] == '.'
    ensures j == 0 ==> !Rest(y, i, true)
    ensures j > 0 && j == |y| ==> Rest(y, i, true)
    ensures j > 0 && j < |y| && i == 7 ==> !Rest(y, i, true)
    ensures j > 0 && j < |y| && i < 7 && y[j] == ':' ==> (Rest(y, i, true) <==> Rest(y[j + 1..], i + 1, true))
    ensures j > 0 && j < |y| && i < 7 && y[j] != ':' ==> (Rest(y, i, true) <==> Ipv4(y))
  {
    hide Gap, Pieces, Ipv4;
    PiecesHead(y, 1, j);
    PiecesHead(y, 2, j);
    NoPieces(y);
    if Rest(y, i, true) {
      var w: nat :| w <= 8 - i && Pieces(y, w);
      PiecesHead(y, w, j);
      if w > 1 && 0 < j < |y| && y[j] == ':' {
        assert Pieces(y[j + 1..], w - 1);
      }
    }
    if 0 < j < |y| && y[j] == ':' && i < 7 && Rest(y[j + 1..], i + 1, true) {
      var w: nat :| w <= 7 - i && Pieces(y[j + 1..], w);
      NoPieces(y[j + 1..]);
      PiecesHead(y, w + 1, j);
      assert Pieces(y, w + 1);
    }
  }

  /** A lone colon cannot end an address. */
  lemma LoneColonLast(x: string)
    requires |x| >= 2 && x[|x| - 1] == ':' && x[|x| - 2] != ':'
    ensures !Ipv6(x)
  {
    if Ipv6(x) {
      Ipv6IsGap(x);
      if Pieces(x, 8) {
        PiecesEnd(x, 8);
      } else if |x| >= 2 && x[..2] == "::" && AtMost(x[2..], 7) {
        assert x[0] == x[..2][0] && x[1] == x[..2][1];
        var w: nat :| w <= 7 && Pieces(x[2..], w);
        PiecesEnd(x[2..], w);
      } else {
        GapEnd(x, 8);
      }
    }
  }

  lemma {:induction false} PiecesEnd(x: string, w: nat)
    requires Pieces(x, w)
    ensures |x| > 0 && x[|x| - 1] != ':'
    decreases w
  {
    hide Ipv4, HexGroup, Pieces;
    var k := PiecesSplit(x, w);
    if k == 0 {
      if Ipv4(x) {
        QuadEnd(x);
      } else {
        GroupEnd(x);
      }
    } else {
      PiecesEnd(x[k + 1..], w - 1);
      assert x[k + 1..][|x| - k - 2] == x[|x| - 1];
    }
  }

  lemma GroupEnd(x: string)
    requires HexGroup(x)
    ensures |x| > 0 && x[|x| - 1] != ':'
  {
    assert IsHexadecimal(x[|x| - 1]);
  }

  lemma QuadEnd(x: string)
    requires Ipv4(x)
    ensures |x| > 0 && x[|x| - 1] != ':'
  {
    hide Dotted;
    Ipv4Start(x);
    DottedChars(x, 4, |x| - 1);
  }

  lemma {:induction false} GapEnd(x: string, b: nat)
    requires Gap(x, b) && |x| > 0 && x[0] != ':'
    ensures x[|x| - 1] != ':' || x[|x| - 2] == ':'
    decreases b
  {
    var j := GapSplit(x, b);
    var y := x[j + 1..];
    if |y| > 0 && y[0] != ':' {
      GapEnd(y, b - 1);
      assert |y| >= 2 ==> y[|y| - 2] == x[|x| - 2];
      GapNotOne(y, b - 1);
    } else {
      GapColonEnd(y, b - 1);
    }
  }

  lemma GapNotOne(y: string, b: nat)
    requires Gap(y, b) && y[0] != ':'
    ensures |y| >= 2
  {
    var j := GapSplit(y, b);
  }

  lemma GapColonEnd(y: string, b: nat)
    requires Gap(y, b) && (|y| > 0 ==> y[0] == ':')
    ensures |y| > 0 && (|y| == 1 || y[|y| - 1] != ':')
  {
    GapAtColon(y, b);
    if |y| > 1 {
      var w: nat :| w <= b - 1 && Pieces(y[1..], w);
      PiecesEnd(y[1..], w);
    }
  }

  // ----- endpoints -----

  /** A port has no colon in it. */
  lemma PortChars(x: string, i: nat)
    requires Port(x) && i < |x|
    ensures IsDecimal(x[i])
  {
  }

  /** The colon before the port is the last one of the endpoint. */
  lemma LastColon(x: string, p: nat, i: nat)
    requires EndpointAt(x, p) && p < i < |x|
    ensures x[i] != ':'
  {
    hide Port, Bracketed, Ipv4, Hostname;
    PortChars(x[p + 1..], i - p - 1);
    assert x[p + 1..][i - p - 1] == x[i];
  }

  lemma ScopedChars(x: string, i: nat)
    requires Scoped(x) && i < |x|
    ensures x[i] != ']'
  {
    hide Ipv6;
    if Ipv6(x) {
      Ipv6Chars(x, i);
    } else {
      var q: nat :| q < |x| && x[q] == '%' && Ipv6(x[..q]) && Scope(x[q + 1..]);
      if i < q {
        Ipv6Chars(x[..q], i);
        assert x[..q][i] == x[i];
      } else if i > q {
        assert x[q + 1..][i - q - 1] == x[i];
      }
    }
  }

  /** A scoped address is cut at its first percent sign. */
  lemma FirstPercent(x: string, q: nat)
    requires q <= |x| && (forall k :: 0 <= k < q ==> x[k] != '%') && (q < |x| ==> x[q] == '%')
    ensures Scoped(x) <==> if q == |x| then Ipv6(x) else Ipv6(x[..q]) && Scope(x[q + 1..])
  {
    hide Ipv6, Scope;
    if q < |x| && Ipv6(x) {
      Ipv6Chars(x, q);
    }
    if r: nat :| r < |x| && x[r] == '%' && Ipv6(x[..r]) && Scope(x[r + 1..]) {
      assert r >= q;
      if r > q {
        Ipv6Chars(x[..r], q);
      }
    }
  }

  /** A bracketed endpoint is cut at its first closing bracket. */
  lemma FirstBracket(x: string, i: nat)
    requires 0 < i <= |x| && x[0] == '[' && (forall k :: 0 <= k < i ==> x[k] != ']') && (i < |x| ==> x[i] == ']')
    ensures Endpoint(x) <==> i + 1 < |x| && x[i + 1] == ':' && Port(x[i + 2..]) && Scoped(x[1..i])
  {
    hide Ipv6, Ipv4, Port, Scoped;
    if Endpoint(x) {
      var p: nat :| EndpointAt(x, p);
      BracketHost(x, p);
      assert i <= p - 1;
      assert x[..p][1..p - 1] == x[1..p - 1];
      if i < p - 1 {
        ScopedChars(x[1..p - 1], i - 1);
      }
    }
    if i + 1 < |x| && x[i + 1] == ':' && Port(x[i + 2..]) && Scoped(x[1..i]) {
      var h := x[..i + 1];
      assert h[1..|h| - 1] == x[1..i];
      assert Bracketed(h);
      assert EndpointAt(x, i + 1);
    }
  }

  /** A host that starts with a bracket is a bracketed one. */
  lemma BracketHost(x: string, p: nat)
    requires EndpointAt(x, p) && x[0] == '['
    ensures p >= 2 && Bracketed(x[..p]) && x[p - 1] == ']'
  {
    hide Ipv4, Hostname, Port, Scoped;
    var h := x[..p];
    if Ipv4(h) || Hostname(h) {
      HostStart(h);
    }
  }

  lemma HostStart(h: string)
    requires Ipv4(h) || Hostname(h)
    ensures |h| > 0 && h[0] != '['
  {
    if Ipv4(h) {
      Ipv4Start(h);
    }
  }

  /** Before the closing bracket there is at most one percent sign, and it ends
      the address. */
  lemma PercentInside(x: string, q: nat, i: nat)
    requires 0 < q < i <= |x| && x[0] == '[' && x[q] == '%' && Endpoint(x)
    requires forall k :: 0 <= k < i ==> x[k] != ']'
    requires forall k :: 0 < k < q ==> x[k] != '%'
    ensures Ipv6(x[1..q]) && forall k :: q < k < i ==> x[k] != '%'
  {
    hide Ipv6, Port, Ipv4, Hostname, Scoped;
    var p: nat :| EndpointAt(x, p);
    BracketHost(x, p);
    var b := x[1..p - 1];
    assert x[..p][1..p - 1] == b;
    FirstPercent(b, q - 1);
    assert b[..q - 1] == x[1..q];
    var s := b[q..];
    forall k | q < k < i
      ensures x[k] != '%'
    {
      assert s[k - q - 1] == x[k];
    }
  }

  lemma NoColonIn(h: string, i: nat)
    requires (Ipv4(h) || Hostname(h)) && i < |h|
    ensures h[i] != ':'
  {
    if Ipv4(h) {
      DottedChars(h, 4, i);
    }
  }

  /** An endpoint without brackets is cut at its first colon. */
  lemma FirstColon(x: string, i: nat)
    requires 0 < |x| && x[0] != '[' && i <= |x|
    requires (forall k :: 0 <= k < i ==> x[k] != ':') && (i < |x| ==> x[i] == ':')
    ensures Endpoint(x) <==> i < |x| && Port(x[i + 1..]) && (Ipv4(x[..i]) || Hostname(x[..i]))
  {
    hide Ipv4, Port, Scoped, Hostname;
    if Endpoint(x) {
      var p: nat :| EndpointAt(x, p);
      assert i <= p;
      assert p >= 2 ==> x[..p][0] == x[0];
      if i < p {
        NoColonIn(x[..p], i);
      }
    }
    if i < |x| && Port(x[i + 1..]) && (Ipv4(x[..i]) || Hostname(x[..i])) {
      assert EndpointAt(x, i);
    }
  }

  /** is_valid_port. */
  method IsValidPort(t: string, lo: nat, hi: nat) returns (r: bool)
    requires lo <= hi <= |t|
    ensures r <==> Port(t[lo..hi])
  {
    r := IsValidUint(t, lo, hi, false, 0, 65535);
  }

  /** is_valid_endpoint. */
  method IsValidEndpoint(t: string, lo: nat, hi: nat) returns (r: bool)
    requires lo <= hi <= |t|
    ensures r <==> Endpoint(t[lo..hi])
  {
    hide Ipv4, Port, Hostname, EndpointAt;
    ghost var x := t[lo..hi];
    if lo == hi {
      NoEndpoint(x);
      return false;
    }
    if t[lo] == '[' {
      r := IsValidBracketed(t, lo, hi);
      return;
    }
    for i := lo to hi
      invariant forall k :: 0 <= k < i - lo ==> x[k] != ':'
    {
      if t[i] == ':' {
        assert x[..i - lo] == t[lo..i] && x[i - lo + 1..] == t[i + 1..hi];
        FirstColon(x, i - lo);
        var port := IsValidPort(t, i + 1, hi);
        var v4 := IsValidIpv4(t, lo, i);
        var name := IsValidHostname(t, lo, i);
        return port && (v4 || name);
      }
    }
    FirstColon(x, hi - lo);
    return false;
  }

  lemma NoEndpoint(x: string)
    requires x == []
    ensures !Endpoint(x)
  {
  }

  /** The bracketed half of is_valid_endpoint. */
  method IsValidBracketed(t: string, lo: nat, hi: nat) returns (r: bool)
    requires lo < hi <= |t| && t[lo] == '['
    ensures r <==> Endpoint(t[lo..hi])
  {
    hide Ipv6, Port, Scope, Endpoint, Scoped;
    ghost var x := t[lo..hi];
    var seen, host := false, lo + 1;
    for i := lo + 1 to hi
      invariant lo < host <= i
      invariant forall k :: 0 <= k < i - lo ==> x[k] != ']'
      invariant forall k :: host - lo <= k < i - lo ==> x[k] != '%'
      invariant !seen ==> host == lo + 1
      invariant seen ==> HostCut(x, host - lo)
    {
      if t[i] == '%' {
        if seen {
          if Endpoint(x) {
            PercentInside(x, host - lo - 1, i - lo + 1);
            assert false;
          }
          return false;
        }
        seen := true;
        var v6 := IsValidIpv6(t, host, i);
        SubSlice(t, lo, hi, host, i);
        if !v6 {
          if Endpoint(x) {
            PercentInside(x, i - lo, i - lo + 1);
            assert false;
          }
          return false;
        }
        host := i + 1;
      } else if t[i] == ']' {
        r := IsValidClosed(t, lo, hi, i, seen, host);
        return;
      }
    }
    FirstBracket(x, hi - lo);
    return false;
  }

  /** Its case for the closing bracket at i. */
  method IsValidClosed(t: string, lo: nat, hi: nat, i: nat, seen: bool, host: nat) returns (r: bool)
    requires lo < host <= i < hi <= |t| && t[lo] == '[' && t[i] == ']'
    requires forall k :: 0 <= k < i - lo ==> t[lo..hi][k] != ']'
    requires forall k :: host - lo <= k < i - lo ==> t[lo..hi][k] != '%'
    requires if seen then HostCut(t[lo..hi], host - lo) else host == lo + 1
    ensures r <==> Endpoint(t[lo..hi])
  {
    hide Ipv6, Port, Scope, Endpoint, Scoped;
    ghost var x, n := t[lo..hi], i - lo;
    ghost var b := x[1..n];
    FirstBracket(x, n);
    SubSlice(t, lo, hi, host, i);
    var good;
    if seen {
      good := IsValidScope(t, host, i);
      FirstPercent(b, host - lo - 2);
      Cuts(x, host - lo, n);
    } else {
      good := IsValidIpv6(t, host, i);
      FirstPercent(b, n - 1);
    }
    if !good {
      return false;
    }
    if i == hi - 1 || t[i + 1] != ':' {
      return false;
    }
    SubSlice(t, lo, hi, i + 2, hi);
    assert x[n + 2..] == x[n + 2..hi - lo];
    r := IsValidPort(t, i + 2, hi);
  }

  lemma SubSlice(t: string, lo: nat, hi: nat, a: nat, b: nat)
    requires lo <= a <= b <= hi <= |t|
    ensures t[lo..hi][a - lo..b - lo] == t[a..b]
  {
    var x := t[lo..hi];
    forall k | 0 <= k < b - a
      ensures x[a - lo..b - lo][k] == t[a..b][k]
    {
      assert x[a - lo + k] == t[a + k];
    }
  }

  lemma Cuts(x: string, h: nat, n: nat)
    requires 2 <= h <= n <= |x|
    ensures x[1..n][..h - 2] == x[1..h - 1] && x[1..n][h - 1..] == x[h..n]
  {
  }

  /** The first percent sign is just before h, after an IPv6 address. */
  ghost predicate HostCut(x: string, h: int) {
    1 < h <= |x| && x[h - 1] == '%' && (forall k :: 0 < k < h - 1 ==> x[k] != '%') && Ipv6(x[1..h - 1])
  }
}
