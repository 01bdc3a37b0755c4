/** The highlighter, highlighter.c: one pass over the text with a small state
    machine, appending spans to a growing array. */
module Highlighter {
  import opened AddressGrammar
  import opened TextCuts
  import opened Validators
  import opened HighlightSpec

  /** SIZE_MAX, the length of the last span. */
  const SIZE_MAX: nat := 0xffff_ffff_ffff_ffff

  /** struct highlight_span_array, with allocation that succeeds. */
  class SpanArray {
    var spans: seq<Span>

    constructor ()
      ensures spans == []
    {
      spans := [];
    }

    /** append_highlight_span: an empty span is not recorded. */
    method Append(kind: Kind, start: nat, len: nat)
      modifies this
      ensures spans == old(spans) + Piece(kind, start, start + len)
    {
      if len == 0 {
        return;
      }
      spans := spans + [Span(kind, start, len)];
    }
  }

  // ----- values -----

  /** highlight_multivalue_value. */
  method HighlightItem(ret: SpanArray, t: string, a: nat, b: nat, field: Field)
    requires a <= b <= |t| && At(t, b) != ':'
    modifies ret
    ensures ret.spans == old(ret.spans) + ItemSpans(t, a, b, field)
  {
    hide Ipv4, Ipv6, Hostname, NetworkSpans;
    match field
    case DNS =>
      var v4 := IsValidIpv4(t, a, b);
      var v6 := IsValidIpv6(t, a, b);
      var name := IsValidHostname(t, a, b);
      if v4 || v6 {
        ret.Append(HighlightIP, a, b - a);
      } else if name {
        ret.Append(HighlightHost, a, b - a);
      } else {
        ret.Append(HighlightError, a, b - a);
      }
    case Address | AllowedIPs =>
      HighlightNetwork(ret, t, a, b);
    case _ =>
      ret.Append(HighlightError, a, b - a);
  }

  /** Its case for addresses with a prefix length. */
  method HighlightNetwork(ret: SpanArray, t: string, a: nat, b: nat)
    requires a <= b <= |t| && At(t, b) != ':'
    modifies ret
    ensures ret.spans == old(ret.spans) + NetworkSpans(t, a, b)
  {
    hide Network;
    var net := IsValidNetwork(t, a, b);
    if !net {
      ret.Append(HighlightError, a, b - a);
      return;
    }
    var slash := a;
    while slash < b && t[slash] != '/'
      invariant a <= slash <= b && forall k :: a <= k < slash ==> t[k] != '/'
    {
      slash := slash + 1;
    }
    assert slash == Find(t, a, b, '/');
    if slash == b {
      ret.Append(HighlightIP, a, b - a);
    } else {
      ret.Append(HighlightIP, a, slash - a);
      ret.Append(HighlightDelimiter, slash, 1);
      ret.Append(HighlightCidr, slash + 1, b - slash - 1);
    }
  }

  /** The current span of a scan that began at `from` and has reached i: it
      starts at the first character that is not blank, and ends where the blanks
      that have just been read begin. */
  ghost predicate Scanned(t: string, from: nat, i: nat, s: nat, len: nat, last: nat) {
    from <= s <= i <= |t|
    && (forall k :: from <= k < s ==> Blank(t[k]))
    && if len == 0 then s == i
       else s + len == i && !Blank(t[s]) && 0 < last && s + last == TrimEnd(t, s, i)
  }

  lemma ScanBlank(t: string, from: nat, i: nat, s: nat, len: nat, last: nat)
    requires Scanned(t, from, i, s, len, last) && i < |t| && Blank(t[i])
    ensures Scanned(t, from, i + 1, if len == 0 then s + 1 else s, if len == 0 then 0 else len + 1, last)
    ensures len == 0 ==> s == i && Scanned(t, from, i + 1, s + 1, 0, last)
    ensures len > 0 ==> Scanned(t, from, i + 1, s, len + 1, last)
  {
  }

  lemma ScanOther(t: string, from: nat, i: nat, s: nat, len: nat, last: nat)
    requires Scanned(t, from, i, s, len, last) && i < |t| && !Blank(t[i])
    ensures Scanned(t, from, i + 1, s, len + 1, len + 1)
  {
  }

  /** The span scanned is the trimmed text. */
  lemma ScanTrims(t: string, from: nat, i: nat, s: nat, len: nat, last: nat)
    requires Scanned(t, from, i, s, len, last)
    ensures s == SkipBlanks(t, from, i)
    ensures TrimEnd(t, s, i) == if len == 0 then s else s + last
  {
  }

  /** Items up to `from` have been written, the comma before it as a delimiter. */
  ghost predicate ListDone(t: string, lo: nat, from: nat, hi: nat, field: Field, e: seq<Span>)
    requires lo <= from <= hi <= |t|
  {
    if from == lo then e == []
    else
      |e| > 0 && e[|e| - 1] == Span(HighlightDelimiter, from - 1, 1)
      && ListSpans(t, lo, hi, field)
         == e[..|e| - 1]
            + Piece(if SkipBlanks(t, from, hi) == hi then HighlightError else HighlightDelimiter, from - 1, from)
            + ListSpans(t, from, hi, field)
  }

  lemma ListComma(t: string, from: nat, c: nat, hi: nat, field: Field)
    requires from <= c < hi <= |t| && t[c] == ',' && forall k :: from <= k < c ==> t[k] != ','
    ensures ListSpans(t, from, hi, field)
            == ItemSpans(t, SkipBlanks(t, from, c), TrimEnd(t, SkipBlanks(t, from, c), c), field)
               + Piece(if SkipBlanks(t, c + 1, hi) == hi then HighlightError else HighlightDelimiter, c, c + 1)
               + ListSpans(t, c + 1, hi, field)
  {
    hide ItemSpans;
    assert c == Find(t, from, hi, ',');
  }

  lemma ListStep(t: string, lo: nat, from: nat, c: nat, hi: nat, field: Field, e: seq<Span>, item: seq<Span>)
    requires lo <= from <= c < hi <= |t| && t[c] == ',' && forall k :: from <= k < c ==> t[k] != ','
    requires ListDone(t, lo, from, hi, field, e)
    requires item == ItemSpans(t, SkipBlanks(t, from, c), TrimEnd(t, SkipBlanks(t, from, c), c), field)
    ensures ListDone(t, lo, c + 1, hi, field, e + item + [Span(HighlightDelimiter, c, 1)])
  {
    hide ListSpans, ItemSpans;
    ListComma(t, from, c, hi, field);
    var f := e + item + [Span(HighlightDelimiter, c, 1)];
    assert f[..|f| - 1] == e + item;
    var sign := Piece(if SkipBlanks(t, c + 1, hi) == hi then HighlightError else HighlightDelimiter, c, c + 1);
    Regroup(e, item, sign, ListSpans(t, c + 1, hi, field));
    if from > lo {
      assert SkipBlanks(t, from, hi) <= c;
      assert e == e[..|e| - 1] + [Span(HighlightDelimiter, from - 1, 1)];
    }
  }

  lemma Regroup(a: seq<Span>, b: seq<Span>, c: seq<Span>, d: seq<Span>)
    ensures a + (b + c + d) == a + b + c + d
  {
    assert a + (b + c + d) == a + (b + c) + d == a + b + c + d;
  }

  /** An item and the comma after it. */
  method HighlightItemAndComma(ret: SpanArray, t: string, a: nat, b: nat, comma: nat, field: Field,
                               ghost before: seq<Span>, ghost e: seq<Span>)
    requires a <= b <= |t| && At(t, b) != ':' && ret.spans == before + e
    modifies ret
    ensures ret.spans == before + (e + ItemSpans(t, a, b, field) + [Span(HighlightDelimiter, comma, 1)])
  {
    hide ItemSpans;
    HighlightItem(ret, t, a, b, field);
    ret.Append(HighlightDelimiter, comma, 1);
    Regroup(before, e, ItemSpans(t, a, b, field), [Span(HighlightDelimiter, comma, 1)]);
  }

  /** highlight_multivalue. */
  method HighlightMultivalue(ret: SpanArray, t: string, lo: nat, hi: nat, field: Field)
    requires lo < hi <= |t| && !Blank(t[lo]) && At(t, hi) != ':' && |ret.spans| > 0
    modifies ret
    ensures ret.spans == old(ret.spans) + ListSpans(t, lo, hi, field)
  {
    hide ListDone, ListSpans, ItemSpans, Scanned, TrimEnd, SkipBlanks;
    var s: nat, len: nat, last: nat := lo, 0, 0;
    ghost var from, e := lo, [];
    ListStarts(t, lo, hi, field);
    ScanStarts(t, lo, 0);
    for i := lo to hi
      invariant lo <= from <= i && s + len <= |t| && last <= len
      invariant forall k :: from <= k < i ==> t[k] != ','
      invariant Scanned(t, from, i, s, len, last) && (len == 0 ==> last == 0 && s == i)
      invariant ListDone(t, lo, from, hi, field, e) && ret.spans == old(ret.spans) + e
    {
      if t[i] == ',' {
        ScanTrims(t, from, i, s, len, last);
        ListStep(t, lo, from, i, hi, field, e, ItemSpans(t, s, s + last, field));
        AfterItem(t, s, i, hi);
        HighlightItemAndComma(ret, t, s, s + last, i, field, old(ret.spans), e);
        e := e + ItemSpans(t, s, s + last, field) + [Span(HighlightDelimiter, i, 1)];
        s, len, last, from := i + 1, 0, 0, i + 1;
        ScanStarts(t, i + 1, 0);
      } else if t[i] == ' ' || t[i] == '\t' {
        ScanBlank(t, from, i, s, len, last);
        if i == s && len == 0 {
          s := s + 1;
        } else {
          len := len + 1;
        }
      } else {
        ScanOther(t, from, i, s, len, last);
        len := len + 1;
        last := len;
      }
    }
    ScanTrims(t, from, hi, s, len, last);
    ListEnds(t, lo, from, hi, field, e, s, s + last);
    if last > 0 {
      AfterItem(t, s, hi, hi);
      HighlightItem(ret, t, s, s + last, field);
    } else {
      var n := |ret.spans| - 1;
      if ret.spans[n].kind == HighlightDelimiter {
        ret.spans := ret.spans[n := ret.spans[n].(kind := HighlightError)];
      }
    }
  }

  lemma ListStarts(t: string, lo: nat, hi: nat, field: Field)
    requires lo <= hi <= |t|
    ensures ListDone(t, lo, lo, hi, field, [])
  {
  }

  lemma ScanStarts(t: string, i: nat, last: nat)
    requires i <= |t|
    ensures Scanned(t, i, i, i, 0, last)
  {
  }

  /** A trimmed piece is followed by a blank or by what ended it. */
  lemma AfterItem(t: string, s: nat, i: nat, hi: nat)
    requires s <= i <= hi <= |t| && At(t, i) != ':'
    ensures At(t, TrimEnd(t, s, i)) != ':'
  {
    var e := TrimEnd(t, s, i);
    assert e < i ==> Blank(t[e]);
  }

  lemma ListEnds(t: string, lo: nat, from: nat, hi: nat, field: Field, e: seq<Span>, s: nat, to: nat)
    requires lo <= from <= hi <= |t| && lo < hi && !Blank(t[lo])
    requires (forall k :: from <= k < hi ==> t[k] != ',') && ListDone(t, lo, from, hi, field, e)
    requires s == SkipBlanks(t, from, hi) && to == TrimEnd(t, s, hi)
    ensures s < to ==> ListSpans(t, lo, hi, field) == e + ItemSpans(t, s, to, field)
    ensures s == to ==> |e| > 0 && e[|e| - 1].kind == HighlightDelimiter
                        && ListSpans(t, lo, hi, field) == e[|e| - 1 := e[|e| - 1].(kind := HighlightError)]
  {
    hide ItemSpans, ListSpans;
    LastItem(t, from, hi, field);
    assert s == to <==> s == hi;
    if from > lo {
      var front := e[..|e| - 1];
      assert e == front + [Span(HighlightDelimiter, from - 1, 1)];
      if s == to {
        EmptyItem(t, s, field);
        assert e[|e| - 1 := e[|e| - 1].(kind := HighlightError)] == front + [Span(HighlightError, from - 1, 1)];
      }
    }
  }

  lemma LastItem(t: string, from: nat, hi: nat, field: Field)
    requires from <= hi <= |t| && forall k :: from <= k < hi ==> t[k] != ','
    ensures ListSpans(t, from, hi, field)
            == ItemSpans(t, SkipBlanks(t, from, hi), TrimEnd(t, SkipBlanks(t, from, hi), hi), field)
  {
    hide ItemSpans;
    assert hi == Find(t, from, hi, ',');
  }

  lemma EmptyItem(t: string, s: nat, field: Field)
    requires s <= |t|
    ensures ItemSpans(t, s, s, field) == []
  {
  }

  /** highlight_value. */
  method HighlightValue(ret: SpanArray, t: string, a: nat, b: nat, field: Field)
    requires a < b <= |t| && !Blank(t[a]) && At(t, b) != ':' && |ret.spans| > 0
    modifies ret
    ensures ret.spans == old(ret.spans) + ValueSpans(t, a, b, field)
  {
    hide ListSpans, EndpointSpans, SimpleKind;
    if field == Endpoint {
      HighlightEndpoint(ret, t, a, b);
    } else if field == Address || field == DNS || field == AllowedIPs {
      HighlightMultivalue(ret, t, a, b, field);
    } else {
      var kind := ClassifyValue(t, a, b, field);
      ret.Append(kind, a, b - a);
    }
  }

  /** Its case for endpoints. */
  method HighlightEndpoint(ret: SpanArray, t: string, a: nat, b: nat)
    requires a < b <= |t|
    modifies ret
    ensures ret.spans == old(ret.spans) + EndpointSpans(t, a, b)
  {
    hide AddressGrammar.Endpoint;
    var valid := IsValidEndpoint(t, a, b);
    if !valid {
      ret.Append(HighlightError, a, b - a);
      return;
    }
    EndpointColon(t, a, b);
    var colon := b - 1;
    while t[colon] != ':'
      invariant a <= colon < b && forall k :: colon < k < b ==> t[k] != ':'
      invariant colon >= FindLast(t, a, b, ':')
      decreases colon
    {
      colon := colon - 1;
    }
    ret.Append(HighlightHost, a, colon - a);
    ret.Append(HighlightDelimiter, colon, 1);
    ret.Append(HighlightPort, colon + 1, b - colon - 1);
  }

  /** The cases of highlight_value with one span. */
  method ClassifyValue(t: string, a: nat, b: nat, field: Field) returns (kind: Kind)
    requires a <= b <= |t|
    ensures kind == SimpleKind(t[a..b], field)
  {
    hide Number;
    var x, ok := t[a..b], false;
    kind := HighlightError;
    match field
    case PrivateKey =>
      ok := IsValidKey(t, a, b);
      kind := if ok then HighlightPrivateKey else HighlightError;
    case PublicKey =>
      ok := IsValidKey(t, a, b);
      kind := if ok then HighlightPublicKey else HighlightError;
    case PresharedKey =>
      ok := IsValidKey(t, a, b);
      kind := if ok then HighlightPresharedKey else HighlightError;
    case MTU =>
      ok := IsValidUint(t, a, b, false, 576, 65535);
      kind := if ok then HighlightMTU else HighlightError;
    case SaveConfig =>
      kind := if x == "true" || x == "false" then HighlightSaveConfig else HighlightError;
    case FwMark =>
      ok := IsValidUint(t, a, b, true, 0, 0xffff_ffff);
      kind := if x == "off" || ok then HighlightFwMark else HighlightError;
    case Table =>
      ok := IsValidUint(t, a, b, false, 0, 0xffff_ffff);
      kind := if x == "auto" || x == "off" || b - a < 512 || ok then HighlightTable else HighlightError;
    case PreUp | PostUp | PreDown | PostDown =>
      kind := if b - a > 0 then HighlightCmd else HighlightError;
    case ListenPort =>
      ok := IsValidPort(t, a, b);
      kind := if ok then HighlightPort else HighlightError;
    case PersistentKeepalive =>
      ok := IsValidUint(t, a, b, false, 0, 65535);
      kind := if x == "off" || ok then HighlightKeepalive else HighlightError;
    case _ =>
  }

  // ----- the state machine -----

  datatype State = OnNone | OnKey | OnValue | OnComment | OnSection

  ghost predicate Without(t: string, a: nat, b: nat, c: char)
    requires b <= |t|
  {
    forall k :: a <= k < b ==> t[k] != c
  }

  /** The line that starts at lo has been read up to i, `e` has been written for
      it, and the machine is in the given state. */
  ghost predicate Reading(t: string, lo: nat, i: nat, state: State, s: nat, len: nat, last: nat,
                          key: nat, equals: nat, field: Field, section: Field, was: Field, e: seq<Span>)
    requires lo <= i <= |t|
  {
    match state
    case OnNone => Without(t, lo, i, '#') && Scanned(t, lo, i, s, len, last) && len == 0 && e == [] && section == was
    case OnKey =>
      Without(t, lo, i, '#') && Scanned(t, lo, i, s, len, last) && len > 0 && t[s] != '['
      && Without(t, s + 1, i, '=') && e == [] && section == was
    case OnSection =>
      Without(t, lo, i, '#') && Scanned(t, lo, i, s, len, last) && len > 0 && t[s] == '['
      && e == [] && section == was
    case OnValue =>
      Without(t, lo, i, '#') && KeyRead(t, lo, key, equals, i) && Scanned(t, equals + 1, i, s, len, last)
      && e == KeySpans(t, key, equals, was) && field == FieldAt(t, key, equals) && section == was
    case OnComment =>
      lo <= s && s + len == i && len > 0 && Without(t, lo, s, '#') && t[s] == '#'
      && e == BodySpans(t, lo, s, was) && section == NextSection(t, lo, s, was)
  }

  /** A key at `key` and an equals sign after it. */
  ghost predicate KeyRead(t: string, lo: nat, key: nat, equals: nat, i: nat) {
    lo <= key < equals < i <= |t|
    && (forall k :: lo <= k < key ==> Blank(t[k]))
    && !Blank(t[key]) && t[key] != '['
    && Without(t, key + 1, equals, '=') && t[equals] == '='
  }

  /** Where the comment begins on a line that ends at i. */
  ghost function HashOf(state: State, s: nat, i: nat): nat {
    if state == OnComment then s else i
  }

  /** The end of the line or the beginning of its comment: what is still owed for
      the line is written. */
  method Finish(ret: SpanArray, t: string, ghost lo: nat, i: nat, state: State, s: nat, len: nat, last: nat,
                ghost key: nat, equals: nat, field: Field, section: Field, ghost was: Field,
                ghost done: seq<Span>, ghost e: seq<Span>)
    returns (next: Field)
    requires lo <= i <= |t| && At(t, i) != ':' && ret.spans == done + e
    requires Reading(t, lo, i, state, s, len, last, key, equals, field, section, was, e)
    modifies ret
    ensures lo <= HashOf(state, s, i) <= i && Without(t, lo, HashOf(state, s, i), '#')
    ensures HashOf(state, s, i) < i ==> t[HashOf(state, s, i)] == '#'
    ensures next == NextSection(t, lo, HashOf(state, s, i), was)
    ensures ret.spans == done
            + (BodySpans(t, lo, HashOf(state, s, i), was) + Piece(HighlightComment, HashOf(state, s, i), i))
  {
    hide BodySpans, NextSection, GetSectionType, ValueSpans, KeySpans, FieldAt;
    next := section;
    match state
    case OnNone =>
      BodyNone(t, lo, i, s, len, last, was);
    case OnKey =>
      BodyKey(t, lo, i, s, len, last, was);
      ret.Append(HighlightError, s, last);
    case OnValue =>
      FinishValue(ret, t, lo, i, s, len, last, key, equals, field, was, done);
    case OnSection =>
      BodySection(t, lo, i, s, len, last, was);
      next := GetSectionType(t[s..s + last]);
      ret.Append(if next == Invalid then HighlightError else HighlightSection, s, last);
    case OnComment =>
      ret.Append(HighlightComment, s, len);
  }

  method FinishValue(ret: SpanArray, t: string, ghost lo: nat, i: nat, s: nat, len: nat, last: nat,
                     ghost key: nat, equals: nat, field: Field, ghost was: Field, ghost done: seq<Span>)
    requires lo <= i <= |t| && At(t, i) != ':'
    requires KeyRead(t, lo, key, equals, i) && Scanned(t, equals + 1, i, s, len, last)
    requires field == FieldAt(t, key, equals)
    requires ret.spans == done + KeySpans(t, key, equals, was)
    modifies ret
    ensures NextSection(t, lo, i, was) == was
    ensures ret.spans == done + BodySpans(t, lo, i, was)
  {
    hide BodySpans, NextSection, ValueSpans, KeySpans, FieldAt, KeyRead;
    BodyValue(t, lo, i, s, len, last, key, equals, was);
    if len > 0 {
      AfterItem(t, s, i, i);
      ret.Append(HighlightDelimiter, equals, 1);
      HighlightValue(ret, t, s, s + last, field);
    } else {
      ret.Append(HighlightError, equals, 1);
    }
  }

  /** The equals sign after a key: the key is written. */
  method FinishKey(ret: SpanArray, t: string, ghost lo: nat, i: nat, s: nat, len: nat, last: nat,
                   ghost key: nat, ghost equals: nat, ghost field: Field, section: Field, ghost was: Field,
                   ghost done: seq<Span>, ghost e: seq<Span>)
    returns (next: Field)
    requires lo <= i < |t| && t[i] == '=' && ret.spans == done + e
    requires Reading(t, lo, i, OnKey, s, len, last, key, equals, field, section, was, e)
    modifies ret
    ensures s <= i && ret.spans == done + KeySpans(t, s, i, was)
    ensures Reading(t, lo, i + 1, OnValue, i + 1, 0, last, s, i, next, section, was, KeySpans(t, s, i, was))
  {
    hide Reading, KeySpans, GetField, FieldAt;
    KeyEnds(t, lo, i, s, len, last, key, equals, field, section, was, e);
    next := GetField(t[s..s + last]);
    var owner := SectionForField(next);
    if owner == Invalid || next == Invalid || owner != section {
      ret.Append(HighlightError, s, last);
    } else {
      ret.Append(HighlightField, s, last);
    }
  }

  lemma BodyNone(t: string, lo: nat, i: nat, s: nat, len: nat, last: nat, was: Field)
    requires lo <= i <= |t| && Scanned(t, lo, i, s, len, last) && len == 0
    ensures BodySpans(t, lo, i, was) == [] && NextSection(t, lo, i, was) == was
  {
    ScanTrims(t, lo, i, s, len, last);
  }

  lemma BodyKey(t: string, lo: nat, i: nat, s: nat, len: nat, last: nat, was: Field)
    requires lo <= i <= |t| && Scanned(t, lo, i, s, len, last) && len > 0 && t[s] != '[' && Without(t, s + 1, i, '=')
    ensures BodySpans(t, lo, i, was) == Piece(HighlightError, s, s + last) && NextSection(t, lo, i, was) == was
  {
    hide KeySpans, AssignedSpans, GetSectionType;
    ScanTrims(t, lo, i, s, len, last);
    assert s + last == Find(t, s + 1, s + last, '=');
  }

  lemma BodySection(t: string, lo: nat, i: nat, s: nat, len: nat, last: nat, was: Field)
    requires lo <= i <= |t| && Scanned(t, lo, i, s, len, last) && len > 0 && t[s] == '['
    ensures s + last <= i
    ensures NextSection(t, lo, i, was) == GetSectionType(t[s..s + last])
    ensures BodySpans(t, lo, i, was)
            == Piece(if GetSectionType(t[s..s + last]) == Invalid then HighlightError else HighlightSection,
                     s, s + last)
  {
    hide KeySpans, AssignedSpans, GetSectionType;
    ScanTrims(t, lo, i, s, len, last);
  }

  lemma BodyValue(t: string, lo: nat, i: nat, s: nat, len: nat, last: nat, key: nat, equals: nat, was: Field)
    requires lo <= i <= |t| && KeyRead(t, lo, key, equals, i) && Scanned(t, equals + 1, i, s, len, last)
    ensures len > 0 ==> s + last <= i && s < s + last == TrimEnd(t, s, i)
    ensures NextSection(t, lo, i, was) == was
    ensures BodySpans(t, lo, i, was)
            == KeySpans(t, key, equals, was)
               + if len == 0 then Piece(HighlightError, equals, equals + 1)
                 else Piece(HighlightDelimiter, equals, equals + 1)
                      + ValueSpans(t, s, s + last, FieldAt(t, key, equals))
  {
    hide KeySpans, ValueSpans, BodySpans, NextSection, FieldAt;
    ScanTrims(t, equals + 1, i, s, len, last);
    var b := if len == 0 then equals + 1 else s + last;
    BodyIsAssignment(t, lo, i, key, equals, b, was);
    assert SkipBlanks(t, equals + 1, b) == if len == 0 then b else s;
  }

  lemma BodyIsAssignment(t: string, lo: nat, i: nat, key: nat, equals: nat, b: nat, was: Field)
    requires lo <= i <= |t| && KeyRead(t, lo, key, equals, i) && equals < b <= i
    requires (forall k :: b <= k < i ==> Blank(t[k])) && !Blank(t[b - 1])
    ensures NextSection(t, lo, i, was) == was
    ensures BodySpans(t, lo, i, was) == KeySpans(t, key, equals, was) + AssignedSpans(t, key, equals, b)
  {
    hide KeySpans, AssignedSpans, GetSectionType;
    LineEnds(t, lo, i, key, equals, b);
  }

  lemma LineEnds(t: string, lo: nat, i: nat, key: nat, equals: nat, b: nat)
    requires lo <= i <= |t| && KeyRead(t, lo, key, equals, i) && equals < b <= i
    requires (forall k :: b <= k < i ==> Blank(t[k])) && !Blank(t[b - 1])
    ensures SkipBlanks(t, lo, i) == key && TrimEnd(t, key, i) == b && Find(t, key + 1, b, '=') == equals
  {
  }

  /** A line read to its end is the next line of the text. */
  lemma LineDone(t: string, lo: nat, hash: nat, end: nat, was: Field)
    requires lo <= hash <= end <= |t| && Without(t, lo, end, '\n') && (end < |t| ==> t[end] == '\n')
    requires Without(t, lo, hash, '#') && (hash < end ==> t[hash] == '#')
    ensures TextSpans(t, lo, was)
            == (BodySpans(t, lo, hash, was) + Piece(HighlightComment, hash, end))
               + if end == |t| then [] else TextSpans(t, end + 1, NextSection(t, lo, hash, was))
  {
    hide BodySpans, NextSection;
    assert end == Find(t, lo, |t|, '\n');
    assert hash == Find(t, lo, end, '#');
  }

  /** highlight_config: the spans are those of the line-by-line definition, so
      every visible character is in exactly one of them, and HighlightEnd. */
  method HighlightConfig(t: string) returns (r: seq<Span>)
    ensures r == TextSpans(t, 0, Invalid) + [Span(HighlightEnd, 0, 0xffff_ffff_ffff_ffff)]
    ensures Covers(r[..|r| - 1], t, 0, |t|)
  {
    hide Reading, TextSpans, BodySpans, NextSection, Covers, Scanned, KeySpans, FieldAt, Without, Piece, GetField;
    var ret := new SpanArray();
    var s: nat, len: nat, last: nat, equals: nat := 0, 0, 0, 0;
    var section, field, state := Invalid, Invalid, OnNone;
    ghost var lo: nat, key: nat, was, done, e := 0, 0, Invalid, [], [];
    LineStarts(t, 0, last, key, equals, field, section);
    var i := 0;
    while true
      invariant lo <= i <= |t| && Without(t, lo, i, '\n')
      invariant Reading(t, lo, i, state, s, len, last, key, equals, field, section, was, e)
      invariant ret.spans == done + e && TextSpans(t, 0, Invalid) == done + TextSpans(t, lo, was)
      decreases |t| - i
    {
      if i == |t| || t[i] == '\n' || (state != OnComment && t[i] == '#') {
        ghost var hash := HashOf(state, s, i);
        section := Finish(ret, t, lo, i, state, s, len, last, key, equals, field, section, was, done, e);
        if i == |t| {
          LineDone(t, lo, hash, i, was);
          break;
        }
        last, field := 0, Invalid;
        if t[i] == '#' {
          s, len, state := i, 1, OnComment;
          e := BodySpans(t, lo, i, was);
          CommentStarts(t, lo, i, last, key, equals, field, section, was, e);
        } else {
          LineDone(t, lo, hash, i, was);
          s, len, state := i + 1, 0, OnNone;
          done := done + (BodySpans(t, lo, hash, was) + Piece(HighlightComment, hash, i));
          e, lo, was := [], i + 1, section;
          LineStarts(t, i + 1, last, key, equals, field, section);
        }
      } else if state == OnComment {
        CommentGrows(t, lo, i, s, len, last, key, equals, field, section, was, e);
        len := len + 1;
      } else if t[i] == ' ' || t[i] == '\t' {
        BlankRead(t, lo, i, state, s, len, last, key, equals, field, section, was, e);
        if i == s && len == 0 {
          s := s + 1;
        } else {
          len := len + 1;
        }
      } else if t[i] == '=' && state == OnKey {
        field := FinishKey(ret, t, lo, i, s, len, last, key, equals, field, section, was, done, e);
        key, e := s, KeySpans(t, s, i, was);
        equals := i;
        s, len, state := i + 1, 0, OnValue;
      } else {
        OtherRead(t, lo, i, state, s, len, last, key, equals, field, section, was, e);
        if state == OnNone {
          state := if t[i] == '[' then OnSection else OnKey;
        }
        len := len + 1;
        last := len;
      }
      NewlineFree(t, lo, i);
      i := i + 1;
    }
    TextCovers(t, 0, Invalid);
    r := ret.spans + [Span(HighlightEnd, 0, SIZE_MAX)];
  }

  lemma NewlineFree(t: string, lo: nat, i: nat)
    requires i < |t| && (lo == i + 1 || (t[i] != '\n' && Without(t, lo, i, '\n')))
    ensures Without(t, lo, i + 1, '\n')
  {
  }

  lemma LineStarts(t: string, lo: nat, last: nat, key: nat, equals: nat, field: Field, section: Field)
    requires lo <= |t|
    ensures Reading(t, lo, lo, OnNone, lo, 0, last, key, equals, field, section, section, [])
    ensures Without(t, lo, lo, '\n')
  {
  }

  lemma CommentStarts(t: string, lo: nat, i: nat, last: nat,
                      key: nat, equals: nat, field: Field, section: Field, was: Field, e: seq<Span>)
    requires lo <= i < |t| && t[i] == '#' && Without(t, lo, i, '#')
    requires e == BodySpans(t, lo, i, was) && section == NextSection(t, lo, i, was)
    ensures Piece(HighlightComment, i, i) == []
    ensures Reading(t, lo, i + 1, OnComment, i, 1, last, key, equals, field, section, was, e)
  {
  }

  lemma CommentGrows(t: string, lo: nat, i: nat, s: nat, len: nat, last: nat,
                     key: nat, equals: nat, field: Field, section: Field, was: Field, e: seq<Span>)
    requires lo <= i < |t| && Reading(t, lo, i, OnComment, s, len, last, key, equals, field, section, was, e)
    ensures Reading(t, lo, i + 1, OnComment, s, len + 1, last, key, equals, field, section, was, e)
  {
    hide BodySpans, NextSection;
  }

  lemma BlankRead(t: string, lo: nat, i: nat, state: State, s: nat, len: nat, last: nat,
                  key: nat, equals: nat, field: Field, section: Field, was: Field, e: seq<Span>)
    requires lo <= i < |t| && Reading(t, lo, i, state, s, len, last, key, equals, field, section, was, e)
    requires state != OnComment && Blank(t[i])
    ensures len == 0 ==> i == s
    ensures Reading(t, lo, i + 1, state, if len == 0 then s + 1 else s, if len == 0 then 0 else len + 1, last,
                    key, equals, field, section, was, e)
  {
    hide KeySpans, FieldAt, Scanned;
    var from := if state == OnValue then equals + 1 else lo;
    ScanBlank(t, from, i, s, len, last);
    ScanPlace(t, from, i, s, len, last);
  }

  lemma ScanPlace(t: string, from: nat, i: nat, s: nat, len: nat, last: nat)
    requires Scanned(t, from, i, s, len, last)
    ensures s + len == i && (len > 0 ==> !Blank(t[s]) && 0 < last <= len)
  {
  }

  lemma OtherRead(t: string, lo: nat, i: nat, state: State, s: nat, len: nat, last: nat,
                  key: nat, equals: nat, field: Field, section: Field, was: Field, e: seq<Span>)
    requires lo <= i < |t| && Reading(t, lo, i, state, s, len, last, key, equals, field, section, was, e)
    requires state != OnComment && !Blank(t[i]) && t[i] != '#' && !(t[i] == '=' && state == OnKey)
    ensures Reading(t, lo, i + 1, if state == OnNone then if t[i] == '[' then OnSection else OnKey else state,
                    s, len + 1, len + 1, key, equals, field, section, was, e)
  {
    hide KeySpans, FieldAt, Scanned;
    var from := if state == OnValue then equals + 1 else lo;
    ScanOther(t, from, i, s, len, last);
    ScanPlace(t, from, i, s, len, last);
  }

  lemma KeyEnds(t: string, lo: nat, i: nat, s: nat, len: nat, last: nat,
                key: nat, equals: nat, field: Field, section: Field, was: Field, e: seq<Span>)
    requires lo <= i < |t| && Reading(t, lo, i, OnKey, s, len, last, key, equals, field, section, was, e)
    requires t[i] == '='
    ensures s + last <= i && e == [] && section == was && s <= i
    ensures GetField(t[s..s + last]) == FieldAt(t, s, i)
    ensures KeySpans(t, s, i, was)
            == Piece(if FieldFits(FieldAt(t, s, i), section) then HighlightField else HighlightError, s, s + last)
    ensures Reading(t, lo, i + 1, OnValue, i + 1, 0, last, s, i, FieldAt(t, s, i), section, was, KeySpans(t, s, i, was))
  {
    hide GetField, FieldFits;
    ScanTrims(t, lo, i, s, len, last);
  }
}
