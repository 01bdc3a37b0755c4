/** The forms of value that the configuration highlighter tells apart, as
    grammars: section 2.2 of RFC 4291 for IPv6 text, dotted quads, host names,
    endpoints, networks and numbers. */
module AddressGrammar {
  import opened KeyText

  predicate IsDecimal(c: char) {
    '0' <= c <= '9'
  }

  predicate IsHexadecimal(c: char) {
    IsDecimal(c) || 'a' <= c <= 'f' || 'A' <= c <= 'F'
  }

  predicate IsAlphabet(c: char) {
    'a' <= c <= 'z' || 'A' <= c <= 'Z'
  }

  predicate Digits(x: string) {
    forall i :: 0 <= i < |x| ==> IsDecimal(x[i])
  }

  function DecimalValue(x: string): int {
    if x == [] then 0 else 10 * DecimalValue(x[..|x| - 1]) + x[|x| - 1] as int - 48
  }

  // ----- IPv4 -----

  /** A number of 0 to 255 without leading zeros. */
  predicate DecimalOctet(x: string) {
    1 <= |x| <= 3 && Digits(x) && (|x| > 1 ==> x[0] != '0') && DecimalValue(x) <= 255
  }

  /** n octets with dots between them. */
  ghost predicate Dotted(x: string, n: nat)
    decreases n
  {
    n > 0 && exists k :: 0 < k <= |x| && DecimalOctet(x[..k])
                         && if n == 1 then k == |x| else k < |x| && x[k] == '.' && Dotted(x[k + 1..], n - 1)
  }

  ghost predicate Ipv4(x: string) {
    Dotted(x, 4)
  }

  /** The first octet of a dotted list is its leading run of digits. */
  lemma DottedHead(x: string, n: nat, j: nat)
    requires n > 0 && j <= 3 && j <= |x| && Digits(x[..j])
    requires j == 3 || j == |x| || !IsDecimal(x[j])
    ensures Dotted(x, n) <==> DecimalOctet(x[..j])
                              && if n == 1 then j == |x| else j < |x| && x[j] == '.' && Dotted(x[j + 1..], n - 1)
  {
    hide DecimalOctet;
    if Dotted(x, n) {
      var k :| 0 < k <= |x| && DecimalOctet(x[..k])
        && if n == 1 then k == |x| else k < |x| && x[k] == '.' && Dotted(x[k + 1..], n - 1);
      RunEnds(x, k, j);
    }
    if DecimalOctet(x[..j]) {
      OctetNonempty(x, j);
    }
  }

  lemma OctetNonempty(x: string, j: nat)
    requires j <= |x| && DecimalOctet(x[..j])
    ensures j > 0
  {
  }

  lemma RunEnds(x: string, k: nat, j: nat)
    requires 0 < k <= |x| && DecimalOctet(x[..k]) && (k == |x| || x[k] == '.')
    requires j <= 3 && j <= |x| && Digits(x[..j]) && (j == 3 || j == |x| || !IsDecimal(x[j]))
    ensures j == k
  {
    assert forall i :: 0 <= i < k ==> x[..k][i] == x[i];
    assert forall i :: 0 <= i < j ==> x[..j][i] == x[i];
    assert !(j < k);
  }

  /** A dotted quad starts with one to three digits and a dot. */
  lemma Ipv4Start(x: string)
    requires Ipv4(x)
    ensures exists k :: 0 < k < |x| && k <= 3 && x[k] == '.' && Digits(x[..k])
  {
    var k :| 0 < k <= |x| && DecimalOctet(x[..k]) && k < |x| && x[k] == '.' && Dotted(x[k + 1..], 3);
  }

  lemma DottedSplit(x: string, n: nat) returns (k: nat)
    requires Dotted(x, n)
    ensures n > 0 && 0 < k <= |x| && DecimalOctet(x[..k])
    ensures if n == 1 then k == |x| else k < |x| && x[k] == '.' && Dotted(x[k + 1..], n - 1)
  {
    hide DecimalOctet;
    k :| 0 < k <= |x| && DecimalOctet(x[..k])
      && if n == 1 then k == |x| else k < |x| && x[k] == '.' && Dotted(x[k + 1..], n - 1);
  }

  lemma OctetChars(x: string, i: nat)
    requires DecimalOctet(x) && i < |x|
    ensures IsDecimal(x[i])
  {
  }

  lemma {:induction false} DottedChars(x: string, n: nat, i: nat)
    requires Dotted(x, n) && i < |x|
    ensures IsDecimal(x[i]) || x[i] == '.'
    decreases n
  {
    hide Dotted, DecimalOctet;
    var k := DottedSplit(x, n);
    if i < k {
      OctetChars(x[..k], i);
      assert x[..k][i] == x[i];
    } else if i > k {
      DottedChars(x[k + 1..], n - 1, i - k - 1);
      assert x[k + 1..][i - k - 1] == x[i];
    }
  }

  // ----- IPv6 -----

  predicate HexGroup(x: string) {
    1 <= |x| <= 4 && forall i :: 0 <= i < |x| ==> IsHexadecimal(x[i])
  }

  /** Sixteen-bit pieces with colons between them, w of them in all, where a
      dotted quad may stand for the last two. */
  ghost predicate Pieces(x: string, w: nat)
    decreases w
  {
    (w == 1 && HexGroup(x))
    || (w == 2 && Ipv4(x))
    || (w > 1 && exists k :: 0 < k < |x| && HexGroup(x[..k]) && x[k] == ':' && Pieces(x[k + 1..], w - 1))
  }

  /** m hexadecimal groups, each followed by a colon. */
  ghost predicate Heads(x: string, m: nat)
    decreases m
  {
    if m == 0 then x == []
    else exists k :: 0 < k < |x| && HexGroup(x[..k]) && x[k] == ':' && Heads(x[k + 1..], m - 1)
  }

  /** What may follow "::", at most c pieces. */
  ghost predicate AtMost(x: string, c: int) {
    x == [] || exists w: nat :: w <= c && Pieces(x, w)
  }

  /** Section 2.2 of RFC 4291: eight pieces, or at most seven with one "::" among
      them; a "::" at the front follows no group. */
  ghost predicate Ipv6(x: string) {
    Pieces(x, 8)
    || (|x| >= 2 && x[..2] == "::" && AtMost(x[2..], 7))
    || exists k, m: nat :: Compressed(x, k, m)
  }

  /** m groups, a "::" whose second colon is at k, and the rest. */
  ghost predicate Compressed(x: string, k: int, m: nat) {
    0 < m <= 7 && 0 < k < |x| && x[k] == ':' && Heads(x[..k], m) && AtMost(x[k + 1..], 7 - m)
  }

  /** Some groups and then an empty one, within b pieces in all. */
  ghost predicate Gap(x: string, b: nat)
    decreases b
  {
    b > 0 && |x| > 0
    && ((x[0] == ':' && AtMost(x[1..], b - 1))
        || exists k :: 0 < k < |x| && HexGroup(x[..k]) && x[k] == ':' && Gap(x[k + 1..], b - 1))
  }

  lemma GapSplit(x: string, b: nat) returns (j: nat)
    requires Gap(x, b)
    ensures b > 0 && j < |x| && x[j] == ':'
    ensures j == 0 ==> AtMost(x[1..], b - 1)
    ensures j > 0 ==> x[0] != ':' && HexGroup(x[..j]) && Gap(x[j + 1..], b - 1)
  {
    hide AtMost;
    if x[0] == ':' && AtMost(x[1..], b - 1) {
      j := 0;
    } else {
      j :| 0 < j < |x| && HexGroup(x[..j]) && x[j] == ':' && Gap(x[j + 1..], b - 1);
      assert x[..j][0] == x[0];
    }
  }

  lemma GapCons(x: string, j: nat, b: nat)
    requires b > 0 && 0 < j < |x| && HexGroup(x[..j]) && x[j] == ':' && Gap(x[j + 1..], b - 1)
    ensures Gap(x, b)
  {
  }

  lemma GapHere(x: string, b: nat)
    requires b > 0 && |x| > 0 && x[0] == ':' && AtMost(x[1..], b - 1)
    ensures Gap(x, b)
  {
  }

  lemma HeadsSplit(x: string, m: nat) returns (j: nat)
    requires m > 0 && Heads(x, m)
    ensures 0 < j < |x| && HexGroup(x[..j]) && x[j] == ':' && Heads(x[j + 1..], m - 1)
  {
    j :| 0 < j < |x| && HexGroup(x[..j]) && x[j] == ':' && Heads(x[j + 1..], m - 1);
  }

  lemma HeadsCons(x: string, j: nat, m: nat)
    requires 0 < j < |x| && HexGroup(x[..j]) && x[j] == ':' && Heads(x[j + 1..], m)
    ensures Heads(x, m + 1)
  {
  }

  lemma SplitAfter(x: string, k: nat, j: nat)
    requires j < k < |x|
    ensures x[..k][..j] == x[..j] && x[..k][j + 1..] == x[j + 1..][..k - j - 1]
    ensures x[j + 1..][k - j - 1] == x[k] && x[j + 1..][k - j..] == x[k + 1..] && x[..k][j] == x[j]
  {
  }

  lemma {:induction false} GapFromHeads(x: string, k: nat, m: nat, b: nat)
    requires m < b && k < |x| && x[k] == ':' && Heads(x[..k], m) && AtMost(x[k + 1..], b - 1 - m)
    ensures Gap(x, b)
    decreases m
  {
    hide AtMost, HexGroup, Pieces, Gap, Heads;
    if m == 0 {
      HeadsNone(x[..k]);
      GapHere(x, b);
    } else {
      var j := HeadsSplit(x[..k], m);
      SplitAfter(x, k, j);
      GapFromHeads(x[j + 1..], k - j - 1, m - 1, b - 1);
      GapCons(x, j, b);
    }
  }

  lemma {:induction false} HeadsFromGap(x: string, b: nat) returns (k: nat, m: nat)
    requires Gap(x, b)
    ensures m < b && k < |x| && x[k] == ':' && Heads(x[..k], m) && AtMost(x[k + 1..], b - 1 - m)
    ensures |x| > 0 && (x[0] != ':' ==> m > 0 && k > 0)
    decreases b
  {
    hide AtMost, HexGroup, Pieces, Gap, Heads;
    var j := GapSplit(x, b);
    if j == 0 {
      k, m := 0, 0;
      HeadsNone(x[..0]);
    } else {
      k, m := HeadsFromGap(x[j + 1..], b - 1);
      k, m := k + j + 1, m + 1;
      SplitAfter(x, k, j);
      HeadsCons(x[..k], j, m - 1);
    }
  }

  /** How the scanner sees the grammar. */
  lemma Ipv6IsGap(x: string)
    ensures Ipv6(x) <==>
      (Pieces(x, 8) || (|x| >= 2 && x[..2] == "::" && AtMost(x[2..], 7)) || (|x| > 0 && x[0] != ':' && Gap(x, 8)))
  {
    if k, m: nat :| Compressed(x, k, m) {
      HeadsStart(x[..k], m);
      assert x[..k][0] == x[0];
      GapFromHeads(x, k, m, 8);
    }
    if |x| > 0 && x[0] != ':' && Gap(x, 8) {
      var k, m := HeadsFromGap(x, 8);
      assert Compressed(x, k, m);
    }
  }

  lemma HeadsStart(x: string, m: nat)
    requires m > 0 && Heads(x, m)
    ensures |x| > 0 && x[0] != ':'
  {
    var j :| 0 < j < |x| && HexGroup(x[..j]) && x[j] == ':' && Heads(x[j + 1..], m - 1);
    assert x[..j][0] == x[0];
  }

  /** The leading run of hexadecimal digits decides the first piece. */
  predicate HexRun(x: string, j: nat) {
    j <= 4 && j <= |x| && (forall i :: 0 <= i < j ==> IsHexadecimal(x[i]))
    && (j == 4 || j == |x| || !IsHexadecimal(x[j]))
  }

  lemma GroupEnds(x: string, k: nat, j: nat)
    requires HexRun(x, j) && 0 < k <= |x| && HexGroup(x[..k]) && (k == |x| || x[k] == ':')
    ensures j == k
  {
    assert forall i :: 0 <= i < k ==> x[..k][i] == x[i];
    assert !(j < k);
  }

  lemma QuadEnds(x: string, j: nat)
    requires HexRun(x, j) && Ipv4(x)
    ensures 0 < j < |x| && x[j] == '.'
  {
    hide Ipv4;
    Ipv4Start(x);
    var k :| 0 < k < |x| && k <= 3 && x[k] == '.' && Digits(x[..k]);
    assert forall i :: 0 <= i < k ==> x[..k][i] == x[i];
    assert j <= k;
    assert k <= j;
  }

  lemma PiecesHead(x: string, w: nat, j: nat)
    requires HexRun(x, j) && w > 0
    ensures Pieces(x, w) <==>
            (j > 0 && ((j == |x| && w == 1) || (j < |x| && x[j] == ':' && w > 1 && Pieces(x[j + 1..], w - 1))))
            || (w == 2 && Ipv4(x))
  {
    hide Ipv4;
    if Pieces(x, w) && !(w == 2 && Ipv4(x)) {
      if w == 1 {
        assert x[..|x|] == x;
        GroupEnds(x, |x|, j);
      } else {
        var k :| 0 < k < |x| && HexGroup(x[..k]) && x[k] == ':' && Pieces(x[k + 1..], w - 1);
        GroupEnds(x, k, j);
      }
    }
    if j > 0 && j < |x| && x[j] == ':' && w > 1 && Pieces(x[j + 1..], w - 1) {
      assert HexGroup(x[..j]);
    }
  }

  lemma GapHead(x: string, b: nat, j: nat)
    requires HexRun(x, j) && j > 0
    ensures Gap(x, b) <==> b > 0 && j < |x| && x[j] == ':' && Gap(x[j + 1..], b - 1)
  {
    if Gap(x, b) {
      assert IsHexadecimal(x[0]);
      var k :| 0 < k < |x| && HexGroup(x[..k]) && x[k] == ':' && Gap(x[k + 1..], b - 1);
      GroupEnds(x, k, j);
    }
    if b > 0 && j < |x| && x[j] == ':' && Gap(x[j + 1..], b - 1) {
      assert HexGroup(x[..j]);
    }
  }

  /** Up to seven groups with colons between them: what the scanner also takes,
      though it is no address, when a colon follows. */
  ghost predicate Unfinished(x: string) {
    |x| >= 2 && exists m: nat :: m <= 7 && Heads(x + ":", m)
  }

  lemma HeadsHead(x: string, m: nat, j: nat)
    requires HexRun(x, j) && m > 0
    ensures Heads(x, m) <==> 0 < j < |x| && x[j] == ':' && Heads(x[j + 1..], m - 1)
  {
    if Heads(x, m) {
      var k := HeadsSplit(x, m);
      GroupEnds(x, k, j);
    }
    if 0 < j < |x| && x[j] == ':' && Heads(x[j + 1..], m - 1) {
      assert HexGroup(x[..j]);
    }
  }

  lemma {:induction false} HeadsChars(x: string, m: nat, i: nat)
    requires Heads(x, m) && i < |x|
    ensures IsHexadecimal(x[i]) || x[i] == ':'
    decreases m
  {
    hide Heads, HexGroup;
    HeadsNonempty(x, m);
    var k := HeadsSplit(x, m);
    if i < k {
      GroupChars(x[..k], i);
      assert x[..k][i] == x[i];
    } else if i > k {
      HeadsChars(x[k + 1..], m - 1, i - k - 1);
      assert x[k + 1..][i - k - 1] == x[i];
    }
  }

  lemma HeadsNonempty(x: string, m: nat)
    requires Heads(x, m) && x != []
    ensures m > 0
  {
  }

  lemma GroupChars(x: string, i: nat)
    requires HexGroup(x) && i < |x|
    ensures IsHexadecimal(x[i])
  {
  }

  lemma {:induction false} HeadsEnd(x: string, m: nat)
    requires m > 0 && Heads(x, m)
    ensures |x| >= 2 && x[|x| - 2] != ':'
    decreases m
  {
    hide Heads, HexGroup;
    var k := HeadsSplit(x, m);
    if m == 1 {
      HeadsNone(x[k + 1..]);
      GroupChars(x[..k], k - 1);
      assert x[..k][k - 1] == x[k - 1];
    } else {
      HeadsEnd(x[k + 1..], m - 1);
      assert x[k + 1..][|x| - k - 3] == x[|x| - 2];
    }
  }

  lemma HeadsNone(x: string)
    ensures Heads(x, 0) <==> x == []
  {
  }

  predicate Ipv6Char(c: char) {
    IsHexadecimal(c) || c == ':' || c == '.'
  }

  lemma {:induction false} PiecesChars(x: string, w: nat, i: nat)
    requires Pieces(x, w) && i < |x|
    ensures Ipv6Char(x[i])
    decreases w
  {
    hide Ipv4, HexGroup, Pieces;
    var k := PiecesSplit(x, w);
    if k == 0 {
      if Ipv4(x) {
        QuadChars(x, i);
      } else {
        GroupChars(x, i);
      }
    } else if i < k {
      GroupChars(x[..k], i);
      assert x[..k][i] == x[i];
    } else if i > k {
      PiecesChars(x[k + 1..], w - 1, i - k - 1);
      assert x[k + 1..][i - k - 1] == x[i];
    }
  }

  lemma QuadChars(x: string, i: nat)
    requires Ipv4(x) && i < |x|
    ensures IsDecimal(x[i]) || x[i] == '.'
  {
    DottedChars(x, 4, i);
  }

  lemma PiecesSplit(x: string, w: nat) returns (k: nat)
    requires Pieces(x, w)
    ensures k == 0 ==> HexGroup(x) || Ipv4(x)
    ensures k > 0 ==> k < |x| && w > 1 && HexGroup(x[..k]) && x[k] == ':' && Pieces(x[k + 1..], w - 1)
  {
    hide Ipv4, HexGroup;
    if (w == 1 && HexGroup(x)) || (w == 2 && Ipv4(x)) {
      k := 0;
    } else {
      k :| 0 < k < |x| && HexGroup(x[..k]) && x[k] == ':' && Pieces(x[k + 1..], w - 1);
    }
  }

  lemma {:induction false} GapChars(x: string, b: nat, i: nat)
    requires Gap(x, b) && i < |x|
    ensures Ipv6Char(x[i])
    decreases b
  {
    if x[0] == ':' && AtMost(x[1..], b - 1) {
      if i > 0 {
        AtMostChars(x[1..], b - 1, i - 1);
        assert x[1..][i - 1] == x[i];
      }
    } else {
      var k :| 0 < k < |x| && HexGroup(x[..k]) && x[k] == ':' && Gap(x[k + 1..], b - 1);
      if i < k {
        assert x[..k][i] == x[i];
      } else if i > k {
        GapChars(x[k + 1..], b - 1, i - k - 1);
        assert x[k + 1..][i - k - 1] == x[i];
      }
    }
  }

  lemma AtMostChars(x: string, c: int, i: nat)
    requires AtMost(x, c) && i < |x|
    ensures Ipv6Char(x[i])
  {
    var w: nat :| w <= c && Pieces(x, w);
    PiecesChars(x, w, i);
  }

  lemma Ipv6Chars(x: string, i: nat)
    requires Ipv6(x) && i < |x|
    ensures Ipv6Char(x[i])
  {
    Ipv6IsGap(x);
    if Pieces(x, 8) {
      PiecesChars(x, 8, i);
    } else if |x| >= 2 && x[..2] == "::" && AtMost(x[2..], 7) {
      if i < 2 {
        assert x[..2][i] == x[i];
      } else {
        AtMostChars(x[2..], 7, i - 2);
        assert x[2..][i - 2] == x[i];
      }
    } else {
      GapChars(x, 8, i);
    }
  }

  // ----- numbers, names, endpoints, networks -----

  predicate HexDigits(x: string) {
    forall i :: 0 <= i < |x| ==> IsHexadecimal(x[i])
  }

  function HexNumber(x: string): int {
    if x == [] then 0 else 16 * HexNumber(x[..|x| - 1]) + HexValue(x[|x| - 1])
  }

  predicate Number(x: string, hex: bool, min: nat, max: nat) {
    1 <= |x| <= 10
    && if hex && |x| > 2 && x[0] == '0' && x[1] == 'x' then HexDigits(x[2..]) && min <= HexNumber(x[2..]) <= max
       else Digits(x) && min <= DecimalValue(x) <= max
  }

  predicate Port(x: string) {
    Number(x, false, 0, 65535)
  }

  predicate HostnameChar(c: char) {
    IsDecimal(c) || IsAlphabet(c) || c == '-' || c == '.'
  }

  /** Letters, digits, hyphens and dots, with something beside digits and dots,
      not starting or ending in a hyphen or a dot. */
  predicate Hostname(x: string) {
    1 <= |x| <= 63
    && x[0] != '-' && x[0] != '.' && x[|x| - 1] != '-' && x[|x| - 1] != '.'
    && (forall i :: 0 <= i < |x| ==> HostnameChar(x[i]))
    && exists i :: 0 <= i < |x| && !IsDecimal(x[i]) && x[i] != '.'
  }

  /** Two dots in a row do not make a host name invalid: wherever a name has a dot
      it may have two. */
  lemma DotsMayRepeat(x: string, y: string)
    requires Hostname(x + "." + y) && |x| + |y| <= 61
    ensures Hostname(x + ".." + y)
  {
    var one, two := x + "." + y, x + ".." + y;
    assert forall i :: 0 <= i < |x| ==> two[i] == one[i];
    assert forall i :: |x| + 2 <= i < |two| ==> two[i] == one[i - 1];
    assert |x| > 0 ==> two[0] == one[0];
    var i :| 0 <= i < |one| && !IsDecimal(one[i]) && one[i] != '.';
    assert two[if i < |x| then i else i + 1] == one[i];
  }

  lemma DoubleDotHost()
    ensures Hostname("a..b")
  {
    var one := "a" + "." + "b";
    assert one[0] == 'a' && one[1] == '.' && one[2] == 'b';
    DotsMayRepeat("a", "b");
    assert "a" + ".." + "b" == "a..b";
  }

  predicate ScopeChar(c: char) {
    IsAlphabet(c) || IsDecimal(c) || c == '_' || c == '=' || c == '+' || c == '.' || c == '-'
  }

  predicate Scope(x: string) {
    1 <= |x| <= 64 && forall i :: 0 <= i < |x| ==> ScopeChar(x[i])
  }

  /** An IPv6 address, perhaps with a scope after a percent sign. */
  ghost predicate Scoped(x: string) {
    Ipv6(x) || exists q: nat :: q < |x| && x[q] == '%' && Ipv6(x[..q]) && Scope(x[q + 1..])
  }

  ghost predicate Bracketed(x: string) {
    |x| >= 2 && x[0] == '[' && x[|x| - 1] == ']' && Scoped(x[1..|x| - 1])
  }

  ghost predicate EndpointAt(x: string, p: nat) {
    p < |x| && x[p] == ':' && Port(x[p + 1..])
    && (Bracketed(x[..p]) || Ipv4(x[..p]) || Hostname(x[..p]))
  }

  /** A host, a colon and a port. */
  ghost predicate Endpoint(x: string) {
    exists p: nat :: EndpointAt(x, p)
  }

  predicate PrefixLength(x: string, max: nat) {
    1 <= |x| <= 3 && Digits(x) && DecimalValue(x) <= max
  }

  ghost predicate NetworkAt(x: string, p: nat) {
    p < |x| && x[p] == '/'
    && if Ipv4(x[..p]) then PrefixLength(x[p + 1..], 32) else Ipv6(x[..p]) && PrefixLength(x[p + 1..], 128)
  }

  /** An address, perhaps with a prefix length after a slash. */
  ghost predicate Network(x: string) {
    Ipv4(x) || Ipv6(x) || exists p: nat :: NetworkAt(x, p)
  }
}
