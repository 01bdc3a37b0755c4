/** What the highlighter makes of ordinary lines, with names and colours written
    out: every field is a field in its own section and an error in the other. */
module HighlightColours {
  import opened KeyText
  import opened TextCuts
  import opened AddressGrammar
  import opened HighlightSpec
  import opened Highlighter
  import opened Validators

  /** Letters count in either case, and nothing else does. */
  lemma CaselessExactly(x: string, y: string)
    ensures CaselessSame(x, y) <==>
      |x| == |y|
      && forall i :: 0 <= i < |x| ==>
           || x[i] == y[i]
           || ('a' <= x[i] <= 'z' && y[i] as int == x[i] as int - 32)
           || ('a' <= y[i] <= 'z' && x[i] as int == y[i] as int - 32)
  {
  }

  lemma CharacterClasses(c: char)
    ensures IsDecimal(c) <==> 48 <= c as int <= 57
    ensures IsHexadecimal(c) <==> 48 <= c as int <= 57 || 65 <= c as int <= 70 || 97 <= c as int <= 102
    ensures IsAlphabet(c) <==> 65 <= c as int <= 90 || 97 <= c as int <= 122
    ensures Blank(c) <==> c as int == 9 || c as int == 32
    ensures Visible(c) <==> c as int != 9 && c as int != 10 && c as int != 32
  {
  }

  /** A name means at most one field. */
  lemma FieldNames(x: string)
    ensures GetField(x) == PrivateKey <==> CaselessSame(x, "PrivateKey")
    ensures GetField(x) == ListenPort <==> CaselessSame(x, "ListenPort")
    ensures GetField(x) == Address <==> CaselessSame(x, "Address")
    ensures GetField(x) == DNS <==> CaselessSame(x, "DNS")
    ensures GetField(x) == MTU <==> CaselessSame(x, "MTU")
    ensures GetField(x) == FwMark <==> CaselessSame(x, "FwMark")
    ensures GetField(x) == Table <==> CaselessSame(x, "Table")
    ensures GetField(x) == PreUp <==> CaselessSame(x, "PreUp")
    ensures GetField(x) == PostUp <==> CaselessSame(x, "PostUp")
    ensures GetField(x) == PreDown <==> CaselessSame(x, "PreDown")
    ensures GetField(x) == PostDown <==> CaselessSame(x, "PostDown")
    ensures GetField(x) == SaveConfig <==> CaselessSame(x, "SaveConfig")
    ensures GetField(x) == PublicKey <==> CaselessSame(x, "PublicKey")
    ensures GetField(x) == PresharedKey <==> CaselessSame(x, "PresharedKey")
    ensures GetField(x) == AllowedIPs <==> CaselessSame(x, "AllowedIPs")
    ensures GetField(x) == Endpoint <==> CaselessSame(x, "Endpoint")
    ensures GetField(x) == PersistentKeepalive <==> CaselessSame(x, "PersistentKeepalive")
  {
    Signatures(x);
    hide CaselessSame, Upper;
  }

  /** Length and first letter tell the names apart. */
  lemma Signatures(x: string)
    ensures CaselessSame(x, "PrivateKey") ==> |x| == 10 && Upper(x[0]) == 'P'
    ensures CaselessSame(x, "ListenPort") ==> |x| == 10 && Upper(x[0]) == 'L'
    ensures CaselessSame(x, "Address") ==> |x| == 7 && Upper(x[0]) == 'A'
    ensures CaselessSame(x, "DNS") ==> |x| == 3 && Upper(x[0]) == 'D'
    ensures CaselessSame(x, "MTU") ==> |x| == 3 && Upper(x[0]) == 'M'
    ensures CaselessSame(x, "FwMark") ==> |x| == 6 && Upper(x[0]) == 'F'
    ensures CaselessSame(x, "Table") ==> |x| == 5 && Upper(x[0]) == 'T'
    ensures CaselessSame(x, "PreUp") ==> |x| == 5 && Upper(x[0]) == 'P'
    ensures CaselessSame(x, "PostUp") ==> |x| == 6 && Upper(x[0]) == 'P'
    ensures CaselessSame(x, "PreDown") ==> |x| == 7 && Upper(x[0]) == 'P'
    ensures CaselessSame(x, "PostDown") ==> |x| == 8 && Upper(x[0]) == 'P'
    ensures CaselessSame(x, "SaveConfig") ==> |x| == 10 && Upper(x[0]) == 'S'
    ensures CaselessSame(x, "PublicKey") ==> |x| == 9 && Upper(x[0]) == 'P'
    ensures CaselessSame(x, "PresharedKey") ==> |x| == 12 && Upper(x[0]) == 'P'
    ensures CaselessSame(x, "AllowedIPs") ==> |x| == 10 && Upper(x[0]) == 'A'
    ensures CaselessSame(x, "Endpoint") ==> |x| == 8 && Upper(x[0]) == 'E'
    ensures CaselessSame(x, "PersistentKeepalive") ==> |x| == 19 && Upper(x[0]) == 'P'
  {
  }

  /** No blank, newline, comment or equals sign. */
  predicate Solid(x: string) {
    x != [] && forall i :: 0 <= i < |x| ==> x[i] !in {' ', '\t', '\n', '#', '='}
  }

  /** A value as it is after its blanks and comment are gone. */
  predicate Value(v: string) {
    v != [] && !Blank(v[0]) && !Blank(v[|v| - 1]) && forall i :: 0 <= i < |v| ==> v[i] != '#' && v[i] != '\n'
  }

  function TwoLines(section: string, name: string, v: string): string {
    section + "\n" + name + " = " + v
  }

  /** Where the parts of the two lines are. */
  lemma Places(section: string, name: string, v: string)
    ensures var t, p, e := TwoLines(section, name, v), |section|, |section| + |name| + 2;
            && |t| == e + 2 + |v| && t[..p] == section && t[p] == '\n'
            && t[p + 1..e - 1] == name && t[e - 1] == ' ' && t[e] == '=' && t[e + 1] == ' ' && t[e + 2..] == v
            && (forall i :: 0 <= i < p ==> t[i] == section[i])
            && (forall i :: p < i < e - 1 ==> t[i] == name[i - p - 1])
            && (forall i :: e + 2 <= i < |t| ==> t[i] == v[i - e - 2])
  {
  }

  lemma SectionFacts(t: string, p: nat)
    requires 0 < p < |t| && Solid(t[..p])
    ensures Without(t, 0, p, '\n') && Without(t, 0, p, '#') && Scanned(t, 0, p, 0, p, p)
  {
    assert forall i :: 0 <= i < p ==> t[i] == t[..p][i];
    assert TrimEnd(t, 0, p) == p;
  }

  lemma FieldFacts(t: string, q: nat, e: nat)
    requires 0 <= q < e - 1 && e + 2 < |t| && t[e - 1] == ' ' && t[e] == '=' && t[e + 1] == ' '
    requires Solid(t[q..e - 1]) && t[q] != '[' && Value(t[e + 2..])
    ensures Without(t, q, |t|, '\n') && Without(t, q, |t|, '#') && KeyRead(t, q, q, e, |t|)
    ensures !Blank(t[|t| - 1]) && !Blank(t[e - 2]) && !Blank(t[e + 2])
  {
    assert forall i :: q <= i < e - 1 ==> t[i] == t[q..e - 1][i - q];
    assert forall i :: e + 2 <= i < |t| ==> t[i] == t[e + 2..][i - e - 2];
  }

  lemma SectionLine(t: string, p: nat)
    requires 0 < p < |t| && t[p] == '\n' && t[0] == '[' && Solid(t[..p])
    ensures TextSpans(t, 0, Invalid)
        == [Span(if GetSectionType(t[..p]) == Invalid then HighlightError else HighlightSection, 0, p)]
           + TextSpans(t, p + 1, GetSectionType(t[..p]))
  {
    SectionFacts(t, p);
    assert t[0..p] == t[..p];
    hide GetSectionType, BodySpans, NextSection, TextSpans, Without, Scanned, Solid, Piece;
    var kind := if GetSectionType(t[..p]) == Invalid then HighlightError else HighlightSection;
    LineDone(t, 0, p, p, Invalid);
    BodySection(t, 0, p, 0, p, p, Invalid);
    NoComment(p);
    OnePiece(kind, p);
    Unite(TextSpans(t, 0, Invalid), BodySpans(t, 0, p, Invalid), TextSpans(t, p + 1, GetSectionType(t[..p])));
  }

  lemma OnePiece(kind: Kind, p: nat)
    requires p > 0
    ensures Piece(kind, 0, p) == [Span(kind, 0, p)]
  {
  }

  lemma Unite(text: seq<Span>, body: seq<Span>, rest: seq<Span>)
    requires text == (body + []) + rest
    ensures text == body + rest
  {
  }

  function KeySpan(t: string, q: nat, e: nat, section: Field): Span
    requires q < e - 1 && e <= |t|
  {
    Span(if FieldFits(GetField(t[q..e - 1]), section) then HighlightField else HighlightError, q, e - 1 - q)
  }

  lemma FieldBody(t: string, q: nat, e: nat, section: Field)
    requires 0 <= q < e - 1 && e + 2 < |t| && t[e - 1] == ' ' && t[e + 1] == ' '
    requires KeyRead(t, q, q, e, |t|) && !Blank(t[|t| - 1]) && !Blank(t[e - 2]) && !Blank(t[e + 2])
    ensures BodySpans(t, q, |t|, section)
        == [KeySpan(t, q, e, section)]
           + ([Span(HighlightDelimiter, e, 1)] + ValueSpans(t, e + 2, |t|, GetField(t[q..e - 1])))
  {
    hide BodySpans, NextSection, KeySpans, AssignedSpans, ValueSpans, GetField, FieldFits, FieldAt, KeyRead;
    BodyIsAssignment(t, q, |t|, q, e, |t|, section);
    KeyPart(t, q, e, section);
    ValuePart(t, q, e);
  }

  lemma FieldLine(t: string, q: nat, e: nat, section: Field)
    requires 0 <= q < e - 1 && e + 2 < |t| && t[e - 1] == ' ' && t[e] == '=' && t[e + 1] == ' '
    requires Solid(t[q..e - 1]) && t[q] != '[' && Value(t[e + 2..])
    ensures TextSpans(t, q, section)
        == [KeySpan(t, q, e, section), Span(HighlightDelimiter, e, 1)]
           + ValueSpans(t, e + 2, |t|, GetField(t[q..e - 1]))
  {
    FieldFacts(t, q, e);
    hide BodySpans, NextSection, TextSpans, ValueSpans, GetField, KeySpan, Without, KeyRead, Solid, Value, Piece;
    LineDone(t, q, |t|, |t|, section);
    FieldBody(t, q, e, section);
    NoComment(|t|);
    Glue(TextSpans(t, q, section), BodySpans(t, q, |t|, section), KeySpan(t, q, e, section),
         Span(HighlightDelimiter, e, 1), ValueSpans(t, e + 2, |t|, GetField(t[q..e - 1])));
  }

  lemma NoComment(n: nat)
    ensures Piece(HighlightComment, n, n) == []
  {
  }

  lemma Glue(text: seq<Span>, body: seq<Span>, key: Span, sign: Span, value: seq<Span>)
    requires text == (body + []) + [] && body == [key] + ([sign] + value)
    ensures text == [key, sign] + value
  {
  }

  lemma KeyPart(t: string, q: nat, e: nat, section: Field)
    requires q < e - 1 && e < |t| && t[e - 1] == ' ' && !Blank(t[e - 2])
    ensures FieldAt(t, q, e) == GetField(t[q..e - 1])
    ensures KeySpans(t, q, e, section)
        == [Span(if FieldFits(GetField(t[q..e - 1]), section) then HighlightField else HighlightError, q, e - 1 - q)]
  {
    hide GetField, FieldFits;
    assert TrimEnd(t, q, e) == TrimEnd(t, q, e - 1) == e - 1;
  }

  lemma ValuePart(t: string, q: nat, e: nat)
    requires q <= e && e + 2 < |t| && t[e + 1] == ' ' && !Blank(t[e + 2])
    ensures AssignedSpans(t, q, e, |t|)
        == [Span(HighlightDelimiter, e, 1)] + ValueSpans(t, e + 2, |t|, FieldAt(t, q, e))
  {
    hide ValueSpans, FieldAt;
    assert SkipBlanks(t, e + 1, |t|) == SkipBlanks(t, e + 2, |t|) == e + 2;
  }

  lemma TwoLineSpans(section: string, name: string, v: string)
    requires Solid(section) && section[0] == '[' && Solid(name) && name[0] != '[' && Value(v)
    ensures var t, p, e := TwoLines(section, name, v), |section|, |section| + |name| + 2;
            && |t| == e + 2 + |v|
            && TextSpans(t, 0, Invalid)
               == [Span(if GetSectionType(section) == Invalid then HighlightError else HighlightSection, 0, p),
                   Span(if FieldFits(GetField(name), GetSectionType(section)) then HighlightField else HighlightError,
                        p + 1, |name|),
                   Span(HighlightDelimiter, e, 1)]
                  + ValueSpans(t, e + 2, |t|, GetField(name))
  {
    hide GetField, FieldFits, ValueSpans, GetSectionType, TextSpans, TwoLines, Solid, Value;
    Places(section, name, v);
    var t, p, e := TwoLines(section, name, v), |section|, |section| + |name| + 2;
    Starts(section, name, v);
    SectionLine(t, p);
    FieldLine(t, p + 1, e, GetSectionType(section));
  }

  lemma Starts(section: string, name: string, v: string)
    requires Solid(section) && Solid(name) && Value(v)
    ensures |section| > 0 && |name| > 0 && |v| > 0
  {
  }

  predicate InterfaceName(x: string) {
    || CaselessSame(x, "PrivateKey") || CaselessSame(x, "ListenPort") || CaselessSame(x, "Address")
    || CaselessSame(x, "DNS") || CaselessSame(x, "MTU") || CaselessSame(x, "FwMark") || CaselessSame(x, "Table")
    || CaselessSame(x, "PreUp") || CaselessSame(x, "PostUp") || CaselessSame(x, "PreDown")
    || CaselessSame(x, "PostDown") || CaselessSame(x, "SaveConfig")
  }

  predicate PeerName(x: string) {
    || CaselessSame(x, "PublicKey") || CaselessSame(x, "PresharedKey") || CaselessSame(x, "AllowedIPs")
    || CaselessSame(x, "Endpoint") || CaselessSame(x, "PersistentKeepalive")
  }

  lemma NameFits(x: string)
    ensures FieldFits(GetField(x), InterfaceSection) <==> InterfaceName(x)
    ensures FieldFits(GetField(x), PeerSection) <==> PeerName(x)
  {
    FieldNames(x);
    hide CaselessSame, GetField;
  }

  lemma SectionNames(x: string)
    ensures GetSectionType(x) == InterfaceSection <==> CaselessSame(x, "[Interface]")
    ensures GetSectionType(x) == PeerSection <==> CaselessSame(x, "[Peer]")
    ensures GetSectionType(x) in {InterfaceSection, PeerSection, Invalid}
  {
    assert CaselessSame(x, "[Interface]") ==> |x| == 11;
    assert CaselessSame(x, "[Peer]") ==> |x| == 6;
  }

  lemma SectionSolid(x: string)
    requires CaselessSame(x, "[Interface]") || CaselessSame(x, "[Peer]")
    ensures Solid(x) && x[0] == '['
  {
    if CaselessSame(x, "[Interface]") {
      Letters(x, "[Interface]");
    } else {
      Letters(x, "[Peer]");
    }
  }

  lemma Letters(x: string, y: string)
    requires CaselessSame(x, y) && Solid(y) && y[0] == '['
    ensures Solid(x) && x[0] == '['
  {
    forall i | 0 <= i < |x|
      ensures x[i] !in {' ', '\t', '\n', '#', '='} && (y[i] == '[' ==> x[i] == '[')
    {
      assert Upper(x[i]) == Upper(y[i]);
    }
  }

  /** Under a section header, in capitals or not, the name of a field is a field
      exactly in its own section, and an error in the other; and the equals sign is
      a delimiter. */
  lemma FieldColours(section: string, name: string, v: string)
    requires CaselessSame(section, "[Interface]") || CaselessSame(section, "[Peer]")
    requires Solid(name) && name[0] != '[' && Value(v)
    ensures var p := |section|;
            var fits := if CaselessSame(section, "[Interface]") then InterfaceName(name) else PeerName(name);
            var r := TextSpans(TwoLines(section, name, v), 0, Invalid);
            && |r| >= 3
            && r[0] == Span(HighlightSection, 0, p)
            && r[1] == Span(if fits then HighlightField else HighlightError, p + 1, |name|)
            && r[2] == Span(HighlightDelimiter, p + |name| + 2, 1)
  {
    hide TextSpans, ValueSpans, GetField, FieldFits, GetSectionType, CaselessSame, InterfaceName, PeerName, Value;
    SectionSolid(section);
    SectionNames(section);
    NameFits(name);
    TwoLineSpans(section, name, v);
  }

  /** The colour of a value of one piece, by the name of its field. */
  ghost function ColourOf(name: string, v: string): Kind {
    if CaselessSame(name, "PrivateKey") && IsKey(v) then HighlightPrivateKey
    else if CaselessSame(name, "PublicKey") && IsKey(v) then HighlightPublicKey
    else if CaselessSame(name, "PresharedKey") && IsKey(v) then HighlightPresharedKey
    else if CaselessSame(name, "ListenPort") && Number(v, false, 0, 65535) then HighlightPort
    else if CaselessSame(name, "MTU") && Number(v, false, 576, 65535) then HighlightMTU
    else if CaselessSame(name, "FwMark") && (v == "off" || Number(v, true, 0, 4294967295)) then HighlightFwMark
    else if CaselessSame(name, "Table") && (|v| < 512 || Number(v, false, 0, 4294967295)) then HighlightTable
    else if CaselessSame(name, "PreUp") || CaselessSame(name, "PostUp") then HighlightCmd
    else if CaselessSame(name, "PreDown") || CaselessSame(name, "PostDown") then HighlightCmd
    else if CaselessSame(name, "SaveConfig") && (v == "true" || v == "false") then HighlightSaveConfig
    else if CaselessSame(name, "PersistentKeepalive") && (v == "off" || Number(v, false, 0, 65535))
    then HighlightKeepalive
    else HighlightError
  }

  predicate ListName(x: string) {
    CaselessSame(x, "Address") || CaselessSame(x, "DNS") || CaselessSame(x, "AllowedIPs")
  }

  lemma SimpleColour(name: string, v: string)
    requires v != [] && !ListName(name) && !CaselessSame(name, "Endpoint")
    ensures GetField(name) !in {Address, DNS, AllowedIPs, Endpoint}
    ensures SimpleKind(v, GetField(name)) == ColourOf(name, v)
  {
    FieldNames(name);
    hide CaselessSame, GetField, IsKey, Number;
    Signatures(name);
  }

  /** The value after the equals sign, in the colour its name gives it or that of an
      error. */
  lemma ValueColours(section: string, name: string, v: string)
    requires CaselessSame(section, "[Interface]") || CaselessSame(section, "[Peer]")
    requires Solid(name) && name[0] != '[' && Value(v) && !ListName(name) && !CaselessSame(name, "Endpoint")
    ensures var r := TextSpans(TwoLines(section, name, v), 0, Invalid);
            |r| == 4 && r[3] == Span(ColourOf(name, v), |section| + |name| + 4, |v|)
  {
    hide TextSpans, GetField, FieldFits, GetSectionType, CaselessSame, Value, SimpleKind, ColourOf, TwoLines, ListName;
    SectionSolid(section);
    TwoLineSpans(section, name, v);
    Places(section, name, v);
    Starts(section, name, v);
    SimpleColour(name, v);
    var e := |section| + |name| + 2;
    ValueIsPiece(TwoLines(section, name, v), e + 2, GetField(name), v);
  }

  lemma ValueIsPiece(t: string, a: nat, field: Field, v: string)
    requires a < |t| && t[a..] == v && field !in {Address, DNS, AllowedIPs, Endpoint}
    ensures ValueSpans(t, a, |t|, field) == [Span(SimpleKind(v, field), a, |v|)]
  {
    hide SimpleKind;
    assert t[a..|t|] == v;
  }

  lemma TextOfKey(k: Key)
    ensures |Base64(k)| == 44 && Value(Base64(k)) && IsKey(Base64(k))
  {
  }

  lemma SectionFormed()
    ensures CaselessSame("[Peer]", "[Peer]") && CaselessSame("[Interface]", "[Interface]")
    ensures !CaselessSame("[Peer]", "[Interface]")
  {
    assert |"[Peer]"| == 6 && |"[Interface]"| == 11;
  }

  lemma KeyNames()
    ensures Solid("PublicKey") && Solid("PrivateKey") && "PublicKey"[0] != '[' && "PrivateKey"[0] != '['
    ensures CaselessSame("PublicKey", "PublicKey") && CaselessSame("PrivateKey", "PrivateKey")
  {
  }

  /** A name is in one list only. */
  lemma OneList(x: string)
    ensures CaselessSame(x, "PrivateKey") ==> InterfaceName(x) && !PeerName(x) && !ListName(x)
    ensures CaselessSame(x, "PublicKey") ==> PeerName(x) && !InterfaceName(x) && !ListName(x)
    ensures CaselessSame(x, "PrivateKey") || CaselessSame(x, "PublicKey") ==> !CaselessSame(x, "Endpoint")
    ensures CaselessSame(x, "PrivateKey") ==> !CaselessSame(x, "PublicKey")
  {
    Signatures(x);
    hide CaselessSame, Upper;
  }

  lemma KeyLine(section: string, name: string, k: Key)
    requires CaselessSame(section, "[Interface]") || CaselessSame(section, "[Peer]")
    requires Solid(name) && name[0] != '[' && (CaselessSame(name, "PrivateKey") || CaselessSame(name, "PublicKey"))
    ensures var p := |section|;
            var fits := if CaselessSame(section, "[Interface]") then CaselessSame(name, "PrivateKey")
                        else CaselessSame(name, "PublicKey");
            TextSpans(TwoLines(section, name, Base64(k)), 0, Invalid)
            == [Span(HighlightSection, 0, p), Span(if fits then HighlightField else HighlightError, p + 1, |name|),
                Span(HighlightDelimiter, p + |name| + 2, 1),
                Span(if CaselessSame(name, "PrivateKey") then HighlightPrivateKey else HighlightPublicKey,
                     p + |name| + 4, 44)]
  {
    hide TextSpans, Base64, TwoLines, CaselessSame, PeerName, InterfaceName, ListName, Solid, Value, IsKey;
    TextOfKey(k);
    OneList(name);
    FieldColours(section, name, Base64(k));
    ValueColours(section, name, Base64(k));
  }

  lemma TwoLinesOf(head: string, section: string, name: string, v: string)
    requires head == section + "\n" + name + " = "
    ensures TwoLines(section, name, v) == head + v
  {
  }

  /** A public key under its peer, for every key. */
  lemma PublicKeyColours(k: Key)
    ensures TextSpans("[Peer]\nPublicKey = " + Base64(k), 0, Invalid)
        == [Span(HighlightSection, 0, 6), Span(HighlightField, 7, 9), Span(HighlightDelimiter, 17, 1),
            Span(HighlightPublicKey, 19, 44)]
  {
    hide TextSpans, Base64, TwoLines, CaselessSame, Solid;
    SectionFormed();
    KeyNames();
    OneList("PublicKey");
    TwoLinesOf("[Peer]\nPublicKey = ", "[Peer]", "PublicKey", Base64(k));
    KeyLine("[Peer]", "PublicKey", k);
  }

  /** A private key under its interface; under a peer its name is an error. */
  lemma PrivateKeyColours(k: Key)
    ensures TextSpans("[Interface]\nPrivateKey = " + Base64(k), 0, Invalid)
        == [Span(HighlightSection, 0, 11), Span(HighlightField, 12, 10), Span(HighlightDelimiter, 23, 1),
            Span(HighlightPrivateKey, 25, 44)]
    ensures TextSpans("[Peer]\nPrivateKey = " + Base64(k), 0, Invalid)
        == [Span(HighlightSection, 0, 6), Span(HighlightError, 7, 10), Span(HighlightDelimiter, 18, 1),
            Span(HighlightPrivateKey, 20, 44)]
  {
    hide TextSpans, Base64, TwoLines, CaselessSame, Solid;
    SectionFormed();
    KeyNames();
    OneList("PrivateKey");
    TwoLinesOf("[Interface]\nPrivateKey = ", "[Interface]", "PrivateKey", Base64(k));
    KeyLine("[Interface]", "PrivateKey", k);
    TwoLinesOf("[Peer]\nPrivateKey = ", "[Peer]", "PrivateKey", Base64(k));
    KeyLine("[Peer]", "PrivateKey", k);
  }

  /** An endpoint: its host, the last colon and the port. */
  lemma EndpointColours(section: string, name: string, v: string, p: nat)
    requires CaselessSame(section, "[Interface]") || CaselessSame(section, "[Peer]")
    requires Solid(name) && name[0] != '[' && Value(v) && CaselessSame(name, "Endpoint")
    requires EndpointAt(v, p) && p + 1 < |v| && p > 0
    ensures var a, r := |section| + |name| + 4, TextSpans(TwoLines(section, name, v), 0, Invalid);
            |r| == 6 && r[3..] == [Span(HighlightHost, a, p), Span(HighlightDelimiter, a + p, 1),
                                   Span(HighlightPort, a + p + 1, |v| - p - 1)]
  {
    hide TextSpans, GetField, FieldFits, GetSectionType, CaselessSame, Value, TwoLines, EndpointAt, ValueSpans;
    SectionSolid(section);
    TwoLineSpans(section, name, v);
    Places(section, name, v);
    FieldNames(name);
    EndpointCut(TwoLines(section, name, v), |section| + |name| + 4, v, p);
  }

  lemma EndpointCut(t: string, a: nat, v: string, p: nat)
    requires a < |t| && t[a..] == v && EndpointAt(v, p) && p + 1 < |v| && p > 0
    ensures ValueSpans(t, a, |t|, Endpoint)
        == [Span(HighlightHost, a, p), Span(HighlightDelimiter, a + p, 1), Span(HighlightPort, a + p + 1, |v| - p - 1)]
  {
    hide Port, Bracketed, Ipv4, Hostname;
    assert t[a..|t|] == v;
    forall i | a + p < i < |t|
      ensures t[i] != ':'
    {
      LastColon(v, p, i - a);
      assert t[a..][i - a] == t[i];
    }
    assert t[a + p] == v[p] == ':';
    assert FindLast(t, a, |t|, ':') == a + p;
  }

  /** Lists of addresses. */
  lemma ListColours(section: string, name: string, v: string)
    requires CaselessSame(section, "[Interface]") || CaselessSame(section, "[Peer]")
    requires Solid(name) && name[0] != '[' && Value(v) && ListName(name)
    ensures var t, a := TwoLines(section, name, v), |section| + |name| + 4;
            var field := if CaselessSame(name, "DNS") then DNS
                         else if CaselessSame(name, "Address") then Address else AllowedIPs;
            && a <= |t| && |TextSpans(t, 0, Invalid)| >= 3
            && TextSpans(t, 0, Invalid)[3..] == ListSpans(t, a, |t|, field)
  {
    hide TextSpans, GetField, FieldFits, GetSectionType, CaselessSame, Value, TwoLines, ListSpans;
    SectionSolid(section);
    TwoLineSpans(section, name, v);
    FieldNames(name);
  }
}
