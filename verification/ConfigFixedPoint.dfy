/** Whatever the configuration reader accepts, showconf prints in a form that the
    reader takes back: reading, printing and reading again loses nothing. */
module ConfigFixedPoint {
  import opened Options
  import opened TextCuts
  import opened ConfigText
  import opened ConfigFile
  import opened ConfigRoundTrip

  /** The address functions print what they have read in a form they can read, as
      inet_ntop and getnameinfo do. */
  ghost predicate WellBehaved(names: Names) {
    && (forall t :: names.port(t).Some? ==> names.port(Decimal(names.port(t).value)) == names.port(t))
    && (forall v6, s :: names.pton(v6, s).Some? ==> PrintableIp(AllowedIp(v6, names.pton(v6, s).value, 0), names))
    && forall h, s :: names.resolve(h, s).Some? ==> PrintableEndpoint(names.resolve(h, s).value, names)
  }

  // ----- what cleaning guarantees -----

  lemma {:induction false} RemoveSpacesClean(s: string)
    ensures Solid(RemoveSpaces(s))
    ensures NoHash(s) ==> NoHash(RemoveSpaces(s))
    ensures NoEquals(s) ==> NoEquals(RemoveSpaces(s))
  {
    if s != [] {
      RemoveSpacesClean(s[..|s| - 1]);
    }
  }

  lemma TextBeforeHash(input: string)
    ensures NoHash(input[..Find(input, 0, |input|, '#')])
  {
  }

  /** A value that may be kept as text number i. */
  predicate TextValue(i: nat, value: string) {
    value != [] && NoHash(value) && if i < 4 then Solid(value) else Trimmed(value) && OneRow(value)
  }

  lemma SolidValue(i: nat, line: string, key: string)
    requires Plain(line) && GetValue(line, key).Some?
    ensures TextValue(i, GetValue(line, key).value)
  {
    var v := GetValue(line, key).value;
    assert forall j :: 0 <= j < |v| ==> v[j] == line[|key| + j];
  }

  lemma PlainCleaning(input: string)
    requires !IsSpecial(input)
    ensures Plain(Clean(input))
  {
    hide IsSpecial, RemoveSpaces;
    TextBeforeHash(input);
    RemoveSpacesClean(input[..Find(input, 0, |input|, '#')]);
  }

  /** The value of an I line: trimmed, and on one line. */
  lemma SpecialCleaning(row: string) returns (k: string, v: string)
    requires OneRow(row) && IsSpecial(row + "\n")
    ensures NoEquals(k) && (Clean(row + "\n") == k || Clean(row + "\n") == k + "=" + v)
    ensures v != [] ==> NoHash(v) && Trimmed(v) && OneRow(v)
  {
    hide IsSpecial, RemoveSpaces, CleanSpecial;
    var input := row + "\n";
    var text := input[..Find(input, 0, |input|, '#')];
    TextBeforeHash(input);
    TrimmedText(row, text);
    assert Clean(input) == CleanSpecial(text);
    k, v := SpecialParts(text, text[..TrimSpaces(text)]);
  }

  lemma TrimmedText(row: string, text: string)
    requires OneRow(row) && |text| <= |row| + 1 && text == (row + "\n")[..|text|] && NoHash(text)
    ensures OneRow(text[..TrimSpaces(text)]) && NoHash(text[..TrimSpaces(text)])
    ensures TrimSpaces(text) > 0 ==> !IsSpace(text[..TrimSpaces(text)][TrimSpaces(text) - 1])
  {
    hide OneRow;
    RowOfText(row, text[..TrimSpaces(text)]);
  }

  lemma SpecialParts(text: string, x: string) returns (k: string, v: string)
    requires x == text[..TrimSpaces(text)] && OneRow(x) && NoHash(x) && (x != [] ==> !IsSpace(x[|x| - 1]))
    ensures NoEquals(k) && (CleanSpecial(text) == k || CleanSpecial(text) == k + "=" + v)
    ensures v != [] ==> NoHash(v) && Trimmed(v) && OneRow(v)
  {
    hide RemoveSpaces, OneRow, NoHash, Trimmed;
    var equals := Find(x, 0, |x|, '=');
    k, v := RemoveSpaces(x[..equals]), [];
    RemoveSpacesClean(x[..equals]);
    if equals == |x| {
      assert x[..equals] == x;
    } else {
      var p := SkipSpaces(x, equals + 1);
      v := x[p..];
      EndOfRow(x, p);
    }
  }

  lemma EndOfRow(x: string, p: nat)
    requires p <= |x| && OneRow(x) && NoHash(x) && (x != [] ==> !IsSpace(x[|x| - 1])) && (p < |x| ==> !IsSpace(x[p]))
    ensures x[p..] != [] ==> NoHash(x[p..]) && Trimmed(x[p..]) && OneRow(x[p..])
  {
    assert forall i :: 0 <= i < |x[p..]| ==> x[p..][i] == x[p + i];
  }

  lemma RowOfText(row: string, x: string)
    requires OneRow(row) && |x| <= |row| + 1 && x == (row + "\n")[..|x|] && (|x| > 0 ==> !IsSpace(x[|x| - 1]))
    ensures OneRow(x)
  {
    var input := row + "\n";
    assert forall i :: 0 <= i < |x| ==> x[i] == input[i];
    assert input[|row|] == '\n';
    assert |x| <= |row|;
    assert forall i :: 0 <= i < |row| ==> input[i] == row[i];
  }

  /** An I line begins with its key. */
  lemma SpecialStart(input: string)
    requires IsSpecial(input) && Clean(input) != []
    ensures Upper(Clean(input)[0]) == 'I'
  {
    assert forall i: nat :: 14 <= i < 19 ==> DeviceKey(i)[0] == 'I' && DeviceKey(i)[1] != '#' && DeviceKey(i)[1] != '=';
    var j: nat :| 14 <= j < 19 && CaselessSame(input[..2], DeviceKey(j));
    assert Upper(input[..2][0]) == 'I' && input[..2][0] == input[0];
    SpecialFirst(input);
  }

  lemma SpecialFirst(input: string)
    requires |input| >= 2 && IsSpecial(input) && Upper(input[0]) == 'I' && Clean(input) != []
    ensures Clean(input)[0] == input[0]
  {
    hide IsSpecial, RemoveSpaces;
    var text := input[..Find(input, 0, |input|, '#')];
    assert text[0] == input[0];
    var x := text[..TrimSpaces(text)];
    assert x[0] == input[0];
    var equals := Find(x, 0, |x|, '=');
    FirstStays(x[..equals]);
    if equals == |x| {
      assert x[..equals] == x;
    } else {
      assert x[..equals][0] == x[0];
    }
  }

  lemma {:induction false} FirstStays(s: string)
    requires s != [] && !IsSpace(s[0])
    ensures RemoveSpaces(s) != [] && RemoveSpaces(s)[0] == s[0]
  {
    if |s| == 1 {
      assert s[..0] == [];
    } else {
      FirstStays(s[..|s| - 1]);
    }
  }

  lemma DeviceKeyFirst(k: nat)
    requires k < 19
    ensures Upper(DeviceKey(k)[0]) == 'I' ==> k >= 14
  {
  }

  lemma SameFirst(line: string, key: string)
    requires key != [] && GetValue(line, key).Some?
    ensures line != [] && Upper(line[0]) == Upper(key[0])
  {
    assert line[..|key|][0] == line[0];
  }

  lemma SpecialKey(line: string, k: nat)
    requires k < 19 && line != [] && Upper(line[0]) == 'I' && GetValue(line, DeviceKey(k) + "=").Some?
    ensures k >= 14
  {
    hide DeviceKey, GetValue;
    SameFirst(line, DeviceKey(k) + "=");
    DeviceKeyFirst(k);
  }

  /** The value found after a key is what follows the first equals sign. */
  lemma ValueAfterEquals(k: string, v: string, key: string)
    requires NoEquals(k) && NoEquals(key)
    ensures GetValue(k, key + "=").None?
    ensures GetValue(k + "=" + v, key + "=").Some? ==> GetValue(k + "=" + v, key + "=") == Some(v) && v != []
  {
    var p := key + "=";
    assert p[|key|] == '=';
    assert |k| > |p| ==> k[..|p|][|key|] == k[|key|] != '=';
    if GetValue(k + "=" + v, p).Some? {
      MatchMeansSame(k, key, v);
      assert (k + "=" + v)[|p|..] == v;
    }
  }

  /** A line that sets text number i sets it to a value that can be printed. */
  lemma LineValue(row: string, k: nat)
    requires OneRow(row) && 10 <= k < 19 && GetValue(Clean(row + "\n"), DeviceKey(k) + "=").Some?
    ensures TextValue(k - 10, GetValue(Clean(row + "\n"), DeviceKey(k) + "=").value)
  {
    hide Clean, GetValue, DeviceKey, IsSpecial;
    var input := row + "\n";
    var line := Clean(input);
    if IsSpecial(input) {
      var name, v := SpecialCleaning(row);
      DeviceKeyPlain(k);
      ValueAfterEquals(name, v, DeviceKey(k));
      SameFirst(line, DeviceKey(k) + "=");
      SpecialStart(input);
      SpecialKey(line, k);
    } else {
      PlainCleaning(input);
      SolidValue(k - 10, line, DeviceKey(k) + "=");
    }
  }

  // ----- what reading keeps -----

  predicate PeerKept(p: Peer, names: Names) {
    && PrintableIps(p.allowedIps, names)
    && (p.endpoint.Some? ==> PrintableEndpoint(p.endpoint.value, names))
    && NumberOr0(p.keepalive) <= 0xffff && p.replaceAllowedIps
  }

  /** All of Printable but the public keys, which are looked for at the end. */
  predicate Kept(d: Device, names: Names) {
    && Formed(d)
    && (Nonzero(d.listenPort) ==> var t := Decimal(d.listenPort.value); names.port(t) == Some(d.listenPort.value))
    && NumberOr0(d.fwmark) <= 0xffff_ffff
    && (forall i :: 0 <= i < NUMBERS ==> NumberOr0(d.numbers[i]) <= 0xffff)
    && (forall i :: 0 <= i < TEXTS && d.texts[i].Some? ==> PrintableText(i, d.texts[i].value))
    && forall i :: 0 <= i < |d.peers| ==> PeerKept(d.peers[i], names)
  }

  /** What a file that replaces the configuration always says. */
  predicate Complete(d: Device) {
    d.replacePeers && d.fwmark.Some? && d.privateKey.Some?
  }

  lemma EntryKept(entry: string, names: Names)
    requires WellBehaved(names) && ParseAllowedIp(entry, names).Some?
    ensures PrintableIp(ParseAllowedIp(entry, names).value, names)
  {
    hide Strtoul;
    var slash := Find(entry, 0, |entry|, '/');
    var v6 := exists i :: 0 <= i < slash && entry[i] == ':';
    assert PrintableIp(AllowedIp(v6, names.pton(v6, entry[..slash]).value, 0), names);
  }

  lemma {:induction false} ListKept(value: string, names: Names)
    requires WellBehaved(names) && ParseAllowedIps(value, names).Some?
    ensures PrintableIps(ParseAllowedIps(value, names).value, names)
    decreases |value|
  {
    hide ParseAllowedIp, PrintableIp, WellBehaved;
    var comma := Find(value, 0, |value|, ',');
    EntryKept(value[..comma], names);
    if comma < |value| {
      ListKept(value[comma + 1..], names);
    }
  }

  lemma PeerStoreKept(p: Peer, k: nat, value: string, names: Names)
    requires WellBehaved(names) && PeerKept(p, names) && k < 6 && StoreInPeer(p, k, value, names).Some?
    ensures PeerKept(StoreInPeer(p, k, value, names).value, names)
  {
    hide ParseAllowedIps, ParseKey, PrintableIp, PrintableEndpoint;
    if k == 0 {
      EndpointKept(value, names);
    } else if k == 2 && value != [] {
      hide WellBehaved;
      ListKept(value, names);
    }
  }

  lemma EndpointKept(value: string, names: Names)
    requires WellBehaved(names) && ParseEndpoint(value, names).Some?
    ensures PrintableEndpoint(ParseEndpoint(value, names).value, names)
  {
    hide PrintableEndpoint, PrintableIp;
  }

  lemma DeviceStoreKept(d: Device, k: nat, value: string, names: Names)
    requires WellBehaved(names) && Kept(d, names) && k < 19 && StoreInDevice(d, k, value, names).Some?
    requires k >= 10 ==> TextValue(k - 10, value)
    ensures Kept(StoreInDevice(d, k, value, names).value, names)
    ensures Complete(d) ==> Complete(StoreInDevice(d, k, value, names).value)
  {
    hide PeerKept, ParseKey, PrintableIp, PrintableEndpoint, Decimal, NoHash, Solid, Trimmed, Strtoul;
  }

  lemma LineKept(c: Context, row: string, names: Names)
    requires WellBehaved(names) && OneRow(row) && Valid(c) && Kept(c.device, names)
    requires ReadLine(c, row + "\n", names).Some?
    ensures Kept(ReadLine(c, row + "\n", names).value.device, names)
    ensures Complete(c.device) ==> Complete(ReadLine(c, row + "\n", names).value.device)
  {
    hide WellBehaved, Clean, DeviceLine, PeerLine, CaselessSame, PeerKept;
    var line := Clean(row + "\n");
    if line != [] && !CaselessSame(line, "[Interface]") {
      if CaselessSame(line, "[Peer]") {
        EmptyPeerKept(names);
      } else if c.section == InDevice {
        DeviceLineKept(c.device, row, names);
      } else {
        PeerLineKept(LastPeer(c), line, names);
      }
    }
  }

  lemma EmptyPeerKept(names: Names)
    ensures PeerKept(EmptyPeer(), names)
  {
  }

  lemma DeviceLineKept(d: Device, row: string, names: Names)
    requires WellBehaved(names) && OneRow(row) && Kept(d, names) && DeviceLine(d, Clean(row + "\n"), names).Some?
    ensures Kept(DeviceLine(d, Clean(row + "\n"), names).value, names)
    ensures Complete(d) ==> Complete(DeviceLine(d, Clean(row + "\n"), names).value)
  {
    hide WellBehaved, Clean, StoreInDevice, Kept, Complete, GetValue, DeviceKey;
    var line := Clean(row + "\n");
    var k := FindDeviceKey(line, 0);
    if k >= 10 {
      LineValue(row, k);
    }
    DeviceStoreKept(d, k, GetValue(line, DeviceKey(k) + "=").value, names);
  }

  lemma PeerLineKept(p: Peer, line: string, names: Names)
    requires WellBehaved(names) && PeerKept(p, names) && PeerLine(p, line, names).Some?
    ensures PeerKept(PeerLine(p, line, names).value, names)
  {
    hide WellBehaved, StoreInPeer, PeerKept, GetValue, PeerKey;
    var k := FindPeerKey(line, 0);
    PeerStoreKept(p, k, GetValue(line, PeerKey(k) + "=").value, names);
  }

  lemma {:induction false} LinesKept(c: Context, rows: seq<string>, names: Names)
    requires WellBehaved(names) && Rows(rows) && Valid(c) && Kept(c.device, names)
    requires ReadLines(c, rows, names).Some?
    ensures Kept(ReadLines(c, rows, names).value.device, names)
    ensures Complete(c.device) ==> Complete(ReadLines(c, rows, names).value.device)
    decreases |rows|
  {
    hide WellBehaved, ReadLine, Kept, Complete, Valid, OneRow;
    if rows != [] {
      LineKept(c, rows[0], names);
      LinesKept(ReadLine(c, rows[0] + "\n", names).value, rows[1..], names);
    }
  }

  lemma StartKept(append: bool, names: Names)
    ensures Kept(Start(append).device, names) && (!append ==> Complete(Start(append).device))
  {
  }

  lemma {:induction false} SplitRows(text: string)
    ensures Rows(SplitLines(text))
    decreases |text|
  {
    if text != [] {
      var end := Find(text, 0, |text|, '\n');
      assert OneRow(text[..end]);
      if end < |text| {
        SplitRows(text[end + 1..]);
      }
    }
  }

  lemma KeptIsPrintable(c: Context, names: Names)
    requires Kept(c.device, names) && Finish(c).Some?
    ensures Printable(c.device, names)
  {
    hide PrintableText, PrintableIps, PrintableEndpoint, Decimal;
  }

  /** Every text that is accepted, with no condition on it: the device read can be
      printed, and what is printed is read back as that device, up to zeros that
      are not printed and fields that a replacing file clears. */
  lemma ReadPrintRead(text: string, append: bool, again: bool, names: Names)
    requires WellBehaved(names) && ReadLines(Start(append), SplitLines(text), names).Some?
    requires Finish(ReadLines(Start(append), SplitLines(text), names).value).Some?
    ensures var d := Finish(ReadLines(Start(append), SplitLines(text), names).value).value;
            && Printable(d, names)
            && ReadLines(Start(again), SplitLines(Text(ShowConf(d, names))), names).Some?
            && Finish(ReadLines(Start(again), SplitLines(Text(ShowConf(d, names))), names).value)
                == Some(ReadBack(d, again))
  {
    hide WellBehaved, ReadLines, SplitLines, Kept, Printable, ShowConf, Text, ReadBack, Start;
    SplitRows(text);
    StartKept(append, names);
    var c := ReadLines(Start(append), SplitLines(text), names).value;
    LinesKept(Start(append), SplitLines(text), names);
    KeptIsPrintable(c, names);
    TextReadBack(c.device, again, names);
  }

  /** Zeros that showconf does not print. */
  predicate NoZeros(d: Device) {
    d.listenPort != Some(0) && forall i :: 0 <= i < |d.peers| ==> d.peers[i].keepalive != Some(0)
  }

  /** A file that replaces the configuration and spells out no zero port or
      keepalive comes back exactly: the device is a fixed point. */
  lemma FixedPoint(text: string, names: Names)
    requires WellBehaved(names) && ReadLines(Start(false), SplitLines(text), names).Some?
    requires Finish(ReadLines(Start(false), SplitLines(text), names).value).Some?
    ensures var d := Finish(ReadLines(Start(false), SplitLines(text), names).value).value;
            ReadBack(d, false) == d <==> NoZeros(d)
    ensures var d := Finish(ReadLines(Start(false), SplitLines(text), names).value).value;
            ReadBack(ReadBack(d, false), false) == ReadBack(d, false)
  {
    hide WellBehaved, ReadLines, SplitLines, Start;
    SplitRows(text);
    StartKept(false, names);
    var c := ReadLines(Start(false), SplitLines(text), names).value;
    LinesKept(Start(false), SplitLines(text), names);
    CompleteIsFixed(c.device, names);
  }

  lemma CompleteIsFixed(d: Device, names: Names)
    requires Kept(d, names) && Complete(d)
    ensures ReadBack(d, false) == d <==> NoZeros(d)
    ensures ReadBack(ReadBack(d, false), false) == ReadBack(d, false)
  {
    hide PrintableText, PrintableIps, PrintableEndpoint, Decimal;
    var r := PeersReadBack(d.peers);
    assert PeersReadBack(r) == r;
    if ReadBack(d, false) == d {
      assert r == d.peers;
      assert forall i :: 0 <= i < |d.peers| ==> d.peers[i] == PeerReadBack(d.peers[i]);
    }
    if NoZeros(d) {
      assert r == d.peers;
    }
  }
}
