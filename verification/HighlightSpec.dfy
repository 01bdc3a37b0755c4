/** What highlighting a configuration text means, line by line: a line is a
    section header, a field with a value, or an error, and then perhaps a comment.
    The colouring of every text is a partition of its visible characters. */
module HighlightSpec {
  import opened AddressGrammar
  import opened KeyText
  import opened TextCuts

  datatype Field =
    | InterfaceSection
    | PrivateKey | ListenPort | Address | DNS | MTU
    | FwMark | Table | PreUp | PostUp | PreDown | PostDown | SaveConfig
    | PeerSection
    | PublicKey | PresharedKey | AllowedIPs | Endpoint | PersistentKeepalive
    | Invalid

  datatype Kind =
    | HighlightSection | HighlightField
    | HighlightPrivateKey | HighlightPublicKey | HighlightPresharedKey
    | HighlightIP | HighlightCidr | HighlightHost | HighlightPort
    | HighlightMTU | HighlightKeepalive | HighlightComment | HighlightDelimiter
    | HighlightTable | HighlightFwMark | HighlightSaveConfig | HighlightCmd
    | HighlightError | HighlightEnd

  datatype Span = Span(kind: Kind, start: nat, len: nat)

  /** section_for_field. */
  function SectionForField(f: Field): Field {
    match f
    case PrivateKey | ListenPort | Address | DNS | MTU => InterfaceSection
    case FwMark | Table | PreUp | PostUp | PreDown | PostDown | SaveConfig => InterfaceSection
    case PublicKey | PresharedKey | AllowedIPs | Endpoint | PersistentKeepalive => PeerSection
    case InterfaceSection | PeerSection | Invalid => Invalid
  }

  /** get_field. */
  function GetField(x: string): Field {
    if CaselessSame(x, "PrivateKey") then PrivateKey
    else if CaselessSame(x, "ListenPort") then ListenPort
    else if CaselessSame(x, "Address") then Address
    else if CaselessSame(x, "DNS") then DNS
    else if CaselessSame(x, "MTU") then MTU
    else if CaselessSame(x, "PublicKey") then PublicKey
    else if CaselessSame(x, "PresharedKey") then PresharedKey
    else if CaselessSame(x, "AllowedIPs") then AllowedIPs
    else if CaselessSame(x, "Endpoint") then Endpoint
    else if CaselessSame(x, "PersistentKeepalive") then PersistentKeepalive
    else if CaselessSame(x, "FwMark") then FwMark
    else if CaselessSame(x, "Table") then Table
    else if CaselessSame(x, "PreUp") then PreUp
    else if CaselessSame(x, "PostUp") then PostUp
    else if CaselessSame(x, "PreDown") then PreDown
    else if CaselessSame(x, "PostDown") then PostDown
    else if CaselessSame(x, "SaveConfig") then SaveConfig
    else Invalid
  }

  /** get_sectiontype. */
  function GetSectionType(x: string): Field {
    if CaselessSame(x, "[Peer]") then PeerSection
    else if CaselessSame(x, "[Interface]") then InterfaceSection
    else Invalid
  }

  // ----- cutting text -----

  predicate Blank(c: char) {
    c == ' ' || c == '\t'
  }

  function SkipBlanks(t: string, a: nat, b: nat): (p: nat)
    requires a <= b <= |t|
    ensures a <= p <= b && (forall k :: a <= k < p ==> Blank(t[k])) && (p < b ==> !Blank(t[p]))
    decreases b - a
  {
    if a < b && Blank(t[a]) then SkipBlanks(t, a + 1, b) else a
  }

  function TrimEnd(t: string, a: nat, b: nat): (p: nat)
    requires a <= b <= |t|
    ensures a <= p <= b && (forall k :: p <= k < b ==> Blank(t[k])) && (a < p ==> !Blank(t[p - 1]))
    decreases b - a
  {
    if a < b && Blank(t[b - 1]) then TrimEnd(t, a, b - 1) else b
  }

  /** One span, or none for an empty piece of text. */
  function Piece(kind: Kind, a: nat, b: nat): (r: seq<Span>)
    requires a <= b
  {
    if a == b then [] else [Span(kind, a, b - a)]
  }

  // ----- values -----

  ghost predicate IsKey(x: string) {
    exists k: Key :: Base64(k) == x
  }

  /** The colour of a value of one piece. */
  ghost function SimpleKind(x: string, field: Field): Kind {
    match field
    case PrivateKey => if IsKey(x) then HighlightPrivateKey else HighlightError
    case PublicKey => if IsKey(x) then HighlightPublicKey else HighlightError
    case PresharedKey => if IsKey(x) then HighlightPresharedKey else HighlightError
    case MTU => if Number(x, false, 576, 65535) then HighlightMTU else HighlightError
    case SaveConfig => if x == "true" || x == "false" then HighlightSaveConfig else HighlightError
    case FwMark => if x == "off" || Number(x, true, 0, 0xffff_ffff) then HighlightFwMark else HighlightError
    case Table =>
      if x == "auto" || x == "off" || |x| < 512 || Number(x, false, 0, 0xffff_ffff) then HighlightTable
      else HighlightError
    case PreUp | PostUp | PreDown | PostDown => if |x| > 0 then HighlightCmd else HighlightError
    case ListenPort => if Port(x) then HighlightPort else HighlightError
    case PersistentKeepalive => if x == "off" || Number(x, false, 0, 65535) then HighlightKeepalive else HighlightError
    case _ => HighlightError
  }

  /** One item of a list of addresses. */
  ghost function ItemSpans(t: string, a: nat, b: nat, field: Field): seq<Span>
    requires a <= b <= |t|
  {
    var x := t[a..b];
    if field == DNS then
      Piece(if Ipv4(x) || Ipv6(x) then HighlightIP else if Hostname(x) then HighlightHost else HighlightError, a, b)
    else if field == Address || field == AllowedIPs then NetworkSpans(t, a, b)
    else Piece(HighlightError, a, b)
  }

  /** An address, perhaps with a prefix length. */
  ghost function NetworkSpans(t: string, a: nat, b: nat): seq<Span>
    requires a <= b <= |t|
  {
    var slash := Find(t, a, b, '/');
    if !Network(t[a..b]) then Piece(HighlightError, a, b)
    else if slash == b then Piece(HighlightIP, a, b)
    else Piece(HighlightIP, a, slash) + Piece(HighlightDelimiter, slash, slash + 1) + Piece(HighlightCidr, slash + 1, b)
  }

  /** Items with commas between them; a comma with nothing after it is an error. */
  ghost function ListSpans(t: string, a: nat, b: nat, field: Field): seq<Span>
    requires a <= b <= |t|
    decreases b - a
  {
    var comma := Find(t, a, b, ',');
    var from := SkipBlanks(t, a, comma);
    var item := ItemSpans(t, from, TrimEnd(t, from, comma), field);
    if comma == b then item
    else
      var dangling := SkipBlanks(t, comma + 1, b) == b;
      item + Piece(if dangling then HighlightError else HighlightDelimiter, comma, comma + 1)
      + ListSpans(t, comma + 1, b, field)
  }

  /** A host and a port, cut at the last colon. */
  ghost function EndpointSpans(t: string, a: nat, b: nat): seq<Span>
    requires a <= b <= |t|
  {
    var colon := FindLast(t, a, b, ':');
    if !AddressGrammar.Endpoint(t[a..b]) || colon == b then Piece(HighlightError, a, b)
    else Piece(HighlightHost, a, colon) + Piece(HighlightDelimiter, colon, colon + 1)
         + Piece(HighlightPort, colon + 1, b)
  }

  ghost function ValueSpans(t: string, a: nat, b: nat, field: Field): seq<Span>
    requires a <= b <= |t|
  {
    match field
    case Endpoint => EndpointSpans(t, a, b)
    case Address | DNS | AllowedIPs => ListSpans(t, a, b, field)
    case _ => Piece(SimpleKind(t[a..b], field), a, b)
  }

  // ----- lines -----

  predicate FieldFits(field: Field, section: Field) {
    field != Invalid && SectionForField(field) != Invalid && SectionForField(field) == section
  }

  /** The key that starts at a, before the equals sign. */
  function FieldAt(t: string, a: nat, equals: nat): Field
    requires a <= equals <= |t|
  {
    GetField(t[a..TrimEnd(t, a, equals)])
  }

  function KeySpans(t: string, a: nat, equals: nat, section: Field): seq<Span>
    requires a <= equals <= |t|
  {
    var kind := if FieldFits(FieldAt(t, a, equals), section) then HighlightField else HighlightError;
    Piece(kind, a, TrimEnd(t, a, equals))
  }

  /** The equals sign and the value after it. */
  ghost function AssignedSpans(t: string, a: nat, equals: nat, b: nat): seq<Span>
    requires a <= equals < b <= |t|
  {
    var value := SkipBlanks(t, equals + 1, b);
    if value == b then Piece(HighlightError, equals, equals + 1)
    else Piece(HighlightDelimiter, equals, equals + 1) + ValueSpans(t, value, b, FieldAt(t, a, equals))
  }

  /** The part of a line before its comment. */
  ghost function BodySpans(t: string, lo: nat, hi: nat, section: Field): seq<Span>
    requires lo <= hi <= |t|
  {
    var a := SkipBlanks(t, lo, hi);
    var b := TrimEnd(t, a, hi);
    if a == b then []
    else if t[a] == '[' then
      Piece(if GetSectionType(t[a..b]) == Invalid then HighlightError else HighlightSection, a, b)
    else
      var equals := Find(t, a + 1, b, '=');
      if equals == b then Piece(HighlightError, a, b)
      else KeySpans(t, a, equals, section) + AssignedSpans(t, a, equals, b)
  }

  /** The section in force after the line. */
  function NextSection(t: string, lo: nat, hi: nat, section: Field): Field
    requires lo <= hi <= |t|
  {
    var a := SkipBlanks(t, lo, hi);
    var b := TrimEnd(t, a, hi);
    if a < b && t[a] == '[' then GetSectionType(t[a..b]) else section
  }

  /** The lines from lo on. */
  ghost function TextSpans(t: string, lo: nat, section: Field): seq<Span>
    requires lo <= |t|
    decreases |t| - lo
  {
    var end := Find(t, lo, |t|, '\n');
    var hash := Find(t, lo, end, '#');
    var line := BodySpans(t, lo, hash, section) + Piece(HighlightComment, hash, end);
    if end == |t| then line else line + TextSpans(t, end + 1, NextSection(t, lo, hash, section))
  }

  // ----- every visible character once -----

  predicate Visible(c: char) {
    c != ' ' && c != '\t' && c != '\n'
  }

  predicate Inside(s: Span, k: nat) {
    s.start <= k < s.start + s.len
  }

  /** The spans are nonempty, lie in [a, b), follow one another without overlap,
      and leave out no visible character. */
  predicate Covers(r: seq<Span>, t: string, a: nat, b: nat)
    requires a <= b <= |t|
  {
    (forall i :: 0 <= i < |r| ==> r[i].len > 0 && a <= r[i].start && r[i].start + r[i].len <= b)
    && (forall i, j :: 0 <= i < j < |r| ==> r[i].start + r[i].len <= r[j].start)
    && (forall k: nat :: a <= k < b && Visible(t[k]) ==> exists i :: 0 <= i < |r| && Inside(r[i], k))
  }

  lemma CoversJoin(r: seq<Span>, s: seq<Span>, t: string, a: nat, m: nat, b: nat)
    requires a <= m <= b <= |t| && Covers(r, t, a, m) && Covers(s, t, m, b)
    ensures Covers(r + s, t, a, b)
  {
    var u := r + s;
    forall k: nat | a <= k < b && Visible(t[k])
      ensures exists i :: 0 <= i < |u| && Inside(u[i], k)
    {
      if k < m {
        var i :| 0 <= i < |r| && Inside(r[i], k);
        assert u[i] == r[i];
      } else {
        var i :| 0 <= i < |s| && Inside(s[i], k);
        assert u[|r| + i] == s[i];
      }
    }
  }

  lemma CoversPiece(kind: Kind, t: string, a: nat, b: nat)
    requires a <= b <= |t|
    ensures Covers(Piece(kind, a, b), t, a, b)
  {
    var r := Piece(kind, a, b);
    forall k: nat | a <= k < b && Visible(t[k])
      ensures exists i :: 0 <= i < |r| && Inside(r[i], k)
    {
      assert Inside(r[0], k);
    }
  }

  /** Blanks around the text covered need no span. */
  lemma CoversWiden(r: seq<Span>, t: string, lo: nat, a: nat, b: nat, hi: nat)
    requires lo <= a <= b <= hi <= |t| && Covers(r, t, a, b)
    requires forall k :: lo <= k < a || b <= k < hi ==> !Visible(t[k])
    ensures Covers(r, t, lo, hi)
  {
  }

  lemma CoversThree(k1: Kind, k2: Kind, k3: Kind, t: string, a: nat, m: nat, b: nat)
    requires a <= m < b <= |t|
    ensures Covers(Piece(k1, a, m) + Piece(k2, m, m + 1) + Piece(k3, m + 1, b), t, a, b)
  {
    hide Covers;
    CoversPiece(k1, t, a, m);
    CoversPiece(k2, t, m, m + 1);
    CoversPiece(k3, t, m + 1, b);
    CoversJoin(Piece(k1, a, m), Piece(k2, m, m + 1), t, a, m, m + 1);
    CoversJoin(Piece(k1, a, m) + Piece(k2, m, m + 1), Piece(k3, m + 1, b), t, a, m + 1, b);
  }

  lemma ItemCovers(t: string, a: nat, b: nat, field: Field)
    requires a <= b <= |t|
    ensures Covers(ItemSpans(t, a, b, field), t, a, b)
  {
    hide Covers, Ipv4, Ipv6, Network, Hostname;
    forall kind
      ensures Covers(Piece(kind, a, b), t, a, b)
    {
      CoversPiece(kind, t, a, b);
    }
    var slash := Find(t, a, b, '/');
    if slash < b {
      CoversThree(HighlightIP, HighlightDelimiter, HighlightCidr, t, a, slash, b);
    }
  }

  lemma {:induction false} ListCovers(t: string, a: nat, b: nat, field: Field)
    requires a <= b <= |t|
    ensures Covers(ListSpans(t, a, b, field), t, a, b)
    decreases b - a
  {
    hide Covers, ItemSpans, Find, SkipBlanks, TrimEnd, Piece;
    var comma := Find(t, a, b, ',');
    var from := SkipBlanks(t, a, comma);
    var to := TrimEnd(t, from, comma);
    var item := ItemSpans(t, from, to, field);
    ItemCovers(t, from, to, field);
    CoversWiden(item, t, a, from, to, comma);
    if comma < b {
      var kind := if SkipBlanks(t, comma + 1, b) == b then HighlightError else HighlightDelimiter;
      CoversPiece(kind, t, comma, comma + 1);
      CoversJoin(item, Piece(kind, comma, comma + 1), t, a, comma, comma + 1);
      ListCovers(t, comma + 1, b, field);
      CoversJoin(item + Piece(kind, comma, comma + 1), ListSpans(t, comma + 1, b, field), t, a, comma + 1, b);
    }
  }

  /** An endpoint has a colon, and the last one is before its port. */
  lemma EndpointColon(t: string, a: nat, b: nat)
    requires a <= b <= |t| && AddressGrammar.Endpoint(t[a..b])
    ensures a <= FindLast(t, a, b, ':') < b && t[FindLast(t, a, b, ':')] == ':'
  {
    hide Ipv4, Port, Hostname, Bracketed;
    var p: nat :| EndpointAt(t[a..b], p);
    assert t[a + p] == ':';
  }

  lemma ValueCovers(t: string, a: nat, b: nat, field: Field)
    requires a <= b <= |t|
    ensures Covers(ValueSpans(t, a, b, field), t, a, b)
  {
    hide Covers, SimpleKind, ListSpans, AddressGrammar.Endpoint;
    if field == Endpoint && AddressGrammar.Endpoint(t[a..b]) {
      EndpointColon(t, a, b);
      CoversThree(HighlightHost, HighlightDelimiter, HighlightPort, t, a, FindLast(t, a, b, ':'), b);
    } else if field in {Address, DNS, AllowedIPs} {
      ListCovers(t, a, b, field);
    } else {
      CoversPiece(HighlightError, t, a, b);
      CoversPiece(SimpleKind(t[a..b], field), t, a, b);
    }
  }

  lemma AssignedCovers(t: string, a: nat, e: nat, b: nat)
    requires a <= e < b <= |t|
    ensures Covers(AssignedSpans(t, a, e, b), t, e, b)
  {
    hide Covers, ValueSpans, FieldAt;
    var value := SkipBlanks(t, e + 1, b);
    if value == b {
      CoversPiece(HighlightError, t, e, e + 1);
      CoversWiden(Piece(HighlightError, e, e + 1), t, e, e, e + 1, b);
    } else {
      var spans := ValueSpans(t, value, b, FieldAt(t, a, e));
      CoversPiece(HighlightDelimiter, t, e, e + 1);
      ValueCovers(t, value, b, FieldAt(t, a, e));
      CoversWiden(spans, t, e + 1, value, b, b);
      CoversJoin(Piece(HighlightDelimiter, e, e + 1), spans, t, e, e + 1, b);
    }
  }

  lemma KeyCovers(t: string, a: nat, e: nat, section: Field)
    requires a <= e <= |t|
    ensures Covers(KeySpans(t, a, e, section), t, a, e)
  {
    hide Covers, FieldAt, FieldFits;
    var key := TrimEnd(t, a, e);
    CoversPiece(HighlightField, t, a, key);
    CoversPiece(HighlightError, t, a, key);
    CoversWiden(KeySpans(t, a, e, section), t, a, a, key, e);
  }

  lemma BodyCovers(t: string, lo: nat, hi: nat, section: Field)
    requires lo <= hi <= |t|
    ensures Covers(BodySpans(t, lo, hi, section), t, lo, hi)
  {
    hide Covers, KeySpans, AssignedSpans, GetSectionType;
    var a := SkipBlanks(t, lo, hi);
    var b := TrimEnd(t, a, hi);
    CoversPiece(HighlightError, t, a, b);
    CoversPiece(HighlightSection, t, a, b);
    if a < b && t[a] != '[' {
      var e := Find(t, a + 1, b, '=');
      if e < b {
        KeyCovers(t, a, e, section);
        AssignedCovers(t, a, e, b);
        CoversJoin(KeySpans(t, a, e, section), AssignedSpans(t, a, e, b), t, a, e, b);
      }
    }
    CoversWiden(BodySpans(t, lo, hi, section), t, lo, a, b, hi);
  }

  /** Every visible character of the text is in exactly one span. */
  lemma {:induction false} TextCovers(t: string, lo: nat, section: Field)
    requires lo <= |t|
    ensures Covers(TextSpans(t, lo, section), t, lo, |t|)
    decreases |t| - lo
  {
    hide Covers, BodySpans, NextSection;
    var end := Find(t, lo, |t|, '\n');
    var hash := Find(t, lo, end, '#');
    var body, comment := BodySpans(t, lo, hash, section), Piece(HighlightComment, hash, end);
    BodyCovers(t, lo, hash, section);
    CoversPiece(HighlightComment, t, hash, end);
    CoversJoin(body, comment, t, lo, hash, end);
    if end < |t| {
      var next := NextSection(t, lo, hash, section);
      TextCovers(t, end + 1, next);
      CoversWiden(body + comment, t, lo, lo, end, end + 1);
      CoversJoin(body + comment, TextSpans(t, end + 1, next), t, lo, end + 1, |t|);
    }
  }
}
