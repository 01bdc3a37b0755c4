/** What showconf prints, config.c reads back. */
module ConfigRoundTrip {
  import opened Options
  import opened KeyText
  import opened AddressGrammar
  import opened TextCuts
  import opened ConfigText
  import opened ConfigFile

  predicate NoEquals(s: string) {
    forall i :: 0 <= i < |s| ==> s[i] != '='
  }

  predicate NoHash(s: string) {
    forall i :: 0 <= i < |s| ==> s[i] != '#'
  }

  /** Text that cleaning leaves as it is. */
  predicate Plain(s: string) {
    Solid(s) && NoHash(s)
  }

  // ----- keys -----

  lemma MatchOwn(key: string, value: string)
    requires value != []
    ensures GetValue(key + "=" + value, key + "=") == Some(value)
  {
    var line, k := key + "=" + value, key + "=";
    assert line[..|k|] == k && line[|k|..] == value;
  }

  /** A key that is not the one of the line does not match it. */
  lemma MatchOther(own: string, key: string, value: string)
    requires NoEquals(own) && NoEquals(key) && !CaselessSame(own, key)
    ensures GetValue(own + "=" + value, key + "=").None?
  {
    if GetValue(own + "=" + value, key + "=").Some? {
      MatchMeansSame(own, key, value);
    }
  }

  lemma MatchMeansSame(own: string, key: string, value: string)
    requires NoEquals(own) && NoEquals(key) && GetValue(own + "=" + value, key + "=").Some?
    ensures CaselessSame(own, key)
  {
    var line, k := own + "=" + value, key + "=";
    var x := line[..|k|];
    assert forall i :: 0 <= i < |k| ==> Upper(k[i]) == Upper(x[i]) && x[i] == line[i];
    assert forall i :: 0 <= i < |own| ==> line[i] == own[i];
    assert forall i :: 0 <= i < |key| ==> k[i] == key[i];
    assert k[|key|] == '=' && line[|own|] == '=';
    assert |own| == |key|;
  }

  lemma DeviceKeysDistinct(i: nat, j: nat)
    requires i < j < 19
    ensures !CaselessSame(DeviceKey(j), DeviceKey(i))
  {
    var a, b := DeviceKey(j), DeviceKey(i);
    assert |a| == |b| ==>
      Upper(a[0]) != Upper(b[0]) || Upper(a[1]) != Upper(b[1]) || (|a| > 2 && Upper(a[2]) != Upper(b[2]));
  }

  lemma PeerKeysDistinct(i: nat, j: nat)
    requires i < j < 6
    ensures !CaselessSame(PeerKey(j), PeerKey(i))
  {
    var a, b := PeerKey(j), PeerKey(i);
    assert |a| == |b| ==> Upper(a[0]) != Upper(b[0]);
  }

  lemma DeviceKeyPlain(i: nat)
    requires i < 19
    ensures NoEquals(DeviceKey(i)) && Plain(DeviceKey(i)) && DeviceKey(i)[0] != '['
    ensures IsSpecial(DeviceKey(i)) <==> i >= 14
  {
  }

  lemma PeerKeyPlain(i: nat)
    requires i < 6
    ensures NoEquals(PeerKey(i)) && Plain(PeerKey(i)) && PeerKey(i)[0] != '[' && !IsSpecial(PeerKey(i))
  {
    hide IsSpecial;
    NotSpecial(PeerKey(i));
  }

  lemma NotSpecial(s: string)
    requires |s| >= 2 && Upper(s[0]) != 'I'
    ensures !IsSpecial(s)
  {
    assert s[..2][0] == s[0];
    assert forall i: nat :: 14 <= i < 19 ==> DeviceKey(i)[0] == 'I';
  }

  lemma {:induction false} FindOwnDevice(k: nat, value: string, i: nat)
    requires i <= k < 19 && value != []
    ensures FindDeviceKey(DeviceKey(k) + "=" + value, i) == k
    decreases k - i
  {
    hide DeviceKey, GetValue;
    DeviceKeyPlain(k);
    if i == k {
      MatchOwn(DeviceKey(k), value);
    } else {
      DeviceKeyPlain(i);
      DeviceKeysDistinct(i, k);
      MatchOther(DeviceKey(k), DeviceKey(i), value);
      FindOwnDevice(k, value, i + 1);
    }
  }

  lemma {:induction false} FindOwnPeer(k: nat, value: string, i: nat)
    requires i <= k < 6 && value != []
    ensures FindPeerKey(PeerKey(k) + "=" + value, i) == k
    decreases k - i
  {
    hide PeerKey, GetValue;
    PeerKeyPlain(k);
    if i == k {
      MatchOwn(PeerKey(k), value);
    } else {
      PeerKeyPlain(i);
      PeerKeysDistinct(i, k);
      MatchOther(PeerKey(k), PeerKey(i), value);
      FindOwnPeer(k, value, i + 1);
    }
  }

  // ----- cleaning -----

  lemma SpecialByKey(key: string, rest: string)
    requires |key| >= 2
    ensures IsSpecial(key + rest) <==> IsSpecial(key)
  {
    hide DeviceKey, CaselessSame;
    assert (key + rest)[..2] == key[..2];
  }

  lemma NoHashFound(s: string)
    requires NoHash(s)
    ensures s[..Find(s, 0, |s|, '#')] == s
  {
  }

  /** Cleaning takes the blanks around the equals sign and the newline away. */
  lemma CleanAssign(key: string, value: string)
    requires |key| >= 2 && !IsSpecial(key) && Plain(key) && Plain(value)
    ensures Clean(Assign(key, value) + "\n") == key + "=" + value
  {
    RemoveSpacesSolid(value);
    CleanList(key, value, value);
  }

  lemma CleanList(key: string, value: string, solid: string)
    requires |key| >= 2 && !IsSpecial(key) && Plain(key) && NoHash(value) && RemoveSpaces(value) == solid
    ensures Clean(Assign(key, value) + "\n") == key + "=" + solid
  {
    hide IsSpecial, RemoveSpaces;
    var input := Assign(key, value) + "\n";
    assert input == key + (" = " + value + "\n");
    SpecialByKey(key, " = " + value + "\n");
    NoHashFound(input);
    RemoveSpacesJoin(Assign(key, value), "\n");
    RemoveSpacesJoin(key + " = ", value);
    RemoveSpacesJoin(key, " = ");
    RemoveSpacesSolid(key);
    Blanks();
  }

  lemma Blanks()
    ensures RemoveSpaces(" = ") == "=" && RemoveSpaces(",") == ","
    ensures RemoveSpaces("\n") == [] && RemoveSpaces(" ") == []
  {
    assert " = "[..2] == " =" && " ="[..1] == " " && " "[..0] == "";
    assert "\n"[..0] == "" && ","[..0] == "";
  }

  /** Text with no blank at either end. */
  predicate Trimmed(s: string) {
    s != [] && !IsSpace(s[0]) && !IsSpace(s[|s| - 1])
  }

  lemma CleanSpecialAssign(key: string, value: string)
    requires |key| >= 2 && IsSpecial(key) && Plain(key) && NoEquals(key) && NoHash(value) && Trimmed(value)
    ensures Clean(Assign(key, value) + "\n") == key + "=" + value
  {
    hide IsSpecial, CleanSpecial;
    var input := Assign(key, value) + "\n";
    assert input == key + (" = " + value + "\n");
    SpecialByKey(key, " = " + value + "\n");
    NoHashFound(input);
    SpecialText(key, value);
  }

  lemma SpecialText(key: string, value: string)
    requires Plain(key) && NoEquals(key) && Trimmed(value)
    ensures CleanSpecial(Assign(key, value) + "\n") == key + "=" + value
  {
    hide RemoveSpaces, Assign, TrimSpaces;
    var x := Assign(key, value);
    EqualsPlace(key, value);
    NewlineTrimmed(key, value);
    RemoveSpacesJoin(key, " ");
    RemoveSpacesSolid(key);
    Blanks();
  }

  lemma NewlineTrimmed(key: string, value: string)
    requires Trimmed(value)
    ensures (Assign(key, value) + "\n")[..TrimSpaces(Assign(key, value) + "\n")] == Assign(key, value)
  {
    var x := Assign(key, value);
    var y := x + "\n";
    assert y[|y| - 1] == '\n' && y[|x| - 1] == x[|x| - 1] == value[|value| - 1];
    assert TrimSpaces(y) == |x|;
  }

  lemma EqualsPlace(key: string, value: string)
    requires NoEquals(key) && Trimmed(value)
    ensures Find(Assign(key, value), 0, |Assign(key, value)|, '=') == |key| + 1
    ensures Assign(key, value)[..|key| + 1] == key + " "
    ensures SkipSpaces(Assign(key, value), |key| + 2) == |key| + 3
    ensures Assign(key, value)[|key| + 3..] == value
  {
    var x := Assign(key, value);
    assert forall i :: 0 <= i < |key| ==> x[i] == key[i];
    assert x[|key|] == ' ' && x[|key| + 1] == '=' && x[|key| + 2] == ' ' && x[|key| + 3] == value[0];
  }

  // ----- one line -----

  lemma NotHeader(key: string, rest: string)
    requires key != [] && key[0] != '['
    ensures !CaselessSame(key + rest, "[Interface]") && !CaselessSame(key + rest, "[Peer]")
  {
    assert (key + rest)[0] == key[0];
    assert Upper(key[0]) != '[';
  }

  /** An assignment in the interface section stores its value. */
  lemma ReadsDeviceKey(c: Context, k: nat, value: string, shown: string, d: Device, names: Names)
    requires Valid(c) && c.section == InDevice && k < 19 && value != []
    requires Clean(Assign(DeviceKey(k), shown) + "\n") == DeviceKey(k) + "=" + value
    requires StoreInDevice(c.device, k, value, names) == Some(d)
    ensures ReadLines(c, [Assign(DeviceKey(k), shown)], names) == Some(c.(device := d))
  {
    hide DeviceKey, Clean, StoreInDevice, FindDeviceKey, GetValue, CaselessSame;
    DeviceKeyPlain(k);
    NotHeader(DeviceKey(k), "=" + value);
    assert DeviceKey(k) + "=" + value == DeviceKey(k) + ("=" + value);
    FindOwnDevice(k, value, 0);
    MatchOwn(DeviceKey(k), value);
    OneLine(c, Assign(DeviceKey(k), shown), names);
  }

  /** And in a peer section. */
  lemma ReadsPeerKey(c: Context, k: nat, value: string, shown: string, p: Peer, names: Names)
    requires Valid(c) && c.section == InPeer && k < 6 && value != []
    requires Clean(Assign(PeerKey(k), shown) + "\n") == PeerKey(k) + "=" + value
    requires StoreInPeer(LastPeer(c), k, value, names) == Some(p)
    ensures ReadLines(c, [Assign(PeerKey(k), shown)], names) == Some(WithLastPeer(c, p))
  {
    hide PeerKey, Clean, StoreInPeer, FindPeerKey, GetValue, CaselessSame;
    PeerKeyPlain(k);
    NotHeader(PeerKey(k), "=" + value);
    assert PeerKey(k) + "=" + value == PeerKey(k) + ("=" + value);
    FindOwnPeer(k, value, 0);
    MatchOwn(PeerKey(k), value);
    OneLine(c, Assign(PeerKey(k), shown), names);
  }

  lemma OneLine(c: Context, line: string, names: Names)
    requires Valid(c)
    ensures ReadLines(c, [line], names) == ReadLine(c, line + "\n", names)
  {
    hide ReadLine;
    assert [line][1..] == [];
    var next := ReadLine(c, line + "\n", names);
    if next.Some? {
      NoLines(next.value, names);
    }
  }

  lemma NoLines(c: Context, names: Names)
    requires Valid(c)
    ensures ReadLines(c, [], names) == Some(c)
  {
  }

  /** Lines are read one after another. */
  lemma {:induction false} ReadsJoin(c: Context, a: seq<string>, b: seq<string>, m: Context, names: Names)
    requires Valid(c) && Valid(m) && ReadLines(c, a, names) == Some(m)
    ensures ReadLines(c, a + b, names) == ReadLines(m, b, names)
    decreases |a|
  {
    hide ReadLine, Valid;
    if a == [] {
      assert a + b == b;
    } else {
      assert (a + b)[0] == a[0] && (a + b)[1..] == a[1..] + b;
      ReadsJoin(ReadLine(c, a[0] + "\n", names).value, a[1..], b, m, names);
    }
  }

  lemma ReadsOptional(c: Context, b: bool, line: string, m: Context, names: Names)
    requires Valid(c) && Valid(m)
    requires if b then ReadLines(c, [line], names) == Some(m) else m == c
    ensures ReadLines(c, Optional(b, line), names) == Some(m)
  {
    NoLines(c, names);
  }

  // ----- one value -----

  lemma DigitsPlain(s: string)
    requires Digits(s)
    ensures Plain(s)
  {
  }

  lemma NumberStored(n: nat)
    requires n <= 0xffff
    ensures ParseNumber(Decimal(n)) == Some(n) && ParseKeepalive(Decimal(n)) == Some(n) && Plain(Decimal(n))
  {
    hide Strtoul, Decimal;
    StrtoulDecimal(n);
    DigitsPlain(Decimal(n));
    assert Upper(Decimal(n)[0]) != 'O';
  }

  lemma FwmarkStored(n: nat)
    requires n <= 0xffff_ffff
    ensures ParseFwmark("0x" + Hexadecimal(n)) == Some(n) && Plain("0x" + Hexadecimal(n))
  {
    hide Strtoul, Hexadecimal;
    StrtoulHex(n);
    var s := "0x" + Hexadecimal(n);
    assert s[0] == '0' && s[1] == 'x' && Upper(s[0]) != 'O';
    assert forall i :: 2 <= i < |s| ==> s[i] == Hexadecimal(n)[i - 2] && IsHexadecimal(s[i]);
  }

  lemma KeyStored(k: Key)
    ensures ParseKey(Base64(k)) == Some(k) && Plain(Base64(k)) && Base64(k) != []
  {
    hide Unpack;
    UnpackOfBase64(k);
    var t := Base64(k);
    forall i | 0 <= i < |t|
      ensures !IsSpace(t[i]) && t[i] != '#'
    {
      assert i < 43 ==> DigitOf(t[i]) >= 0;
    }
  }

  lemma SwitchStored(b: bool)
    ensures var s := if b then "on" else "off"; ParseBool(s) == Some(b) && Plain(s)
  {
    assert |"on"| != |"off"|;
  }

  /** What the address functions must do for an address to be read back. */
  predicate PrintableIp(a: AllowedIp, names: Names) {
    var s := names.ntop(a.v6, a.address);
    && names.pton(a.v6, s) == Some(a.address)
    && Plain(s)
    && (forall i :: 0 <= i < |s| ==> s[i] != ',' && s[i] != '/')
    && ((exists i :: 0 <= i < |s| && s[i] == ':') <==> a.v6)
    && a.cidr <= if a.v6 then 128 else 32
  }

  predicate PrintableEndpoint(e: SocketAddress, names: Names) {
    var host, service := names.host(e), names.service(e);
    && names.resolve(host, service) == Some(e)
    && Plain(host) && Plain(service)
    && host != [] && host[0] != '[' && (forall i :: 0 <= i < |host| ==> host[i] != ']')
    && service != [] && forall i :: 0 <= i < |service| ==> service[i] != ':'
  }

  lemma EntryReads(a: AllowedIp, names: Names)
    requires PrintableIp(a, names)
    ensures ParseAllowedIp(AllowedText(a, names), names) == Some(a)
    ensures Plain(AllowedText(a, names))
    ensures forall i :: 0 <= i < |AllowedText(a, names)| ==> AllowedText(a, names)[i] != ','
  {
    hide Strtoul, Decimal;
    var s, mask := names.ntop(a.v6, a.address), Decimal(a.cidr);
    var x := AllowedText(a, names);
    StrtoulDecimal(a.cidr);
    DigitsPlain(mask);
    assert forall i :: 0 <= i < |s| ==> x[i] == s[i];
    assert x[|s|] == '/';
    assert forall i :: |s| < i < |x| ==> x[i] == mask[i - |s| - 1];
    assert Find(x, 0, |x|, '/') == |s|;
    assert x[..|s|] == s && x[|s| + 1..] == mask;
  }

  /** The list without its blanks. */
  function Compact(ips: seq<AllowedIp>, names: Names): string {
    if ips == [] then []
    else if |ips| == 1 then AllowedText(ips[0], names)
    else AllowedText(ips[0], names) + "," + Compact(ips[1..], names)
  }

  predicate PrintableIps(ips: seq<AllowedIp>, names: Names) {
    forall i :: 0 <= i < |ips| ==> PrintableIp(ips[i], names)
  }

  lemma {:induction false} ListCompacts(ips: seq<AllowedIp>, names: Names)
    requires PrintableIps(ips, names)
    ensures RemoveSpaces(AllowedList(ips, names)) == Compact(ips, names) && NoHash(AllowedList(ips, names))
  {
    hide RemoveSpaces, AllowedText, PrintableIp;
    if ips == [] {
      RemoveSpacesSolid([]);
    } else {
      var x := AllowedText(ips[0], names);
      EntryReads(ips[0], names);
      RemoveSpacesSolid(x);
      if |ips| > 1 {
        var rest := AllowedList(ips[1..], names);
        ListCompacts(ips[1..], names);
        RemoveSpacesJoin(x + ", ", rest);
        RemoveSpacesJoin(x, ", ");
        CommaBlank();
      }
    }
  }

  lemma CommaBlank()
    ensures RemoveSpaces(", ") == ","
  {
    assert ", "[..1] == ",";
    Blanks();
  }

  /** A printed list is read back in its order. */
  lemma {:induction false} ListReads(ips: seq<AllowedIp>, names: Names)
    requires PrintableIps(ips, names) && ips != []
    ensures ParseAllowedIps(Compact(ips, names), names) == Some(ips) && Compact(ips, names) != []
  {
    hide AllowedText, ParseAllowedIp, PrintableIp;
    var first, list := AllowedText(ips[0], names), Compact(ips, names);
    EntryReads(ips[0], names);
    EntryNonempty(ips[0], names);
    if |ips| == 1 {
      assert Find(list, 0, |list|, ',') == |list|;
      assert list[..|list|] == first && ips == [ips[0]];
    } else {
      var rest := Compact(ips[1..], names);
      ListReads(ips[1..], names);
      assert list == first + "," + rest;
      assert forall i :: 0 <= i < |first| ==> list[i] == first[i];
      assert list[|first|] == ',';
      assert Find(list, 0, |list|, ',') == |first|;
      assert list[..|first|] == first && list[|first| + 1..] == rest;
      assert ips == [ips[0]] + ips[1..];
    }
  }

  lemma EntryNonempty(a: AllowedIp, names: Names)
    ensures AllowedText(a, names) != []
  {
  }

  lemma EndpointReads(e: SocketAddress, names: Names)
    requires PrintableEndpoint(e, names)
    ensures ParseEndpoint(EndpointText(e, names), names) == Some(e)
    ensures Plain(EndpointText(e, names)) && EndpointText(e, names) != []
  {
    var host, service, x := names.host(e), names.service(e), EndpointText(e, names);
    if e.v6 && exists i :: 0 <= i < |host| && host[i] == ':' {
      BracketCuts(host, service);
    } else {
      ColonCuts(host, service);
    }
  }

  lemma BracketCuts(host: string, service: string)
    requires Plain(host) && Plain(service) && service != [] && forall i :: 0 <= i < |host| ==> host[i] != ']'
    ensures var x := "[" + host + "]:" + service;
            && Plain(x) && x[0] == '[' && Find(x, 0, |x|, ']') == |host| + 1 && x[|host| + 2] == ':'
            && x[1..|host| + 1] == host && x[|host| + 3..] == service
  {
    var x := "[" + host + "]:" + service;
    assert forall i :: 1 <= i <= |host| ==> x[i] == host[i - 1];
    assert x[|host| + 1] == ']' && x[|host| + 2] == ':';
    assert forall i :: |host| + 3 <= i < |x| ==> x[i] == service[i - |host| - 3];
  }

  lemma ColonCuts(host: string, service: string)
    requires Plain(host) && Plain(service) && service != [] && host != []
    requires forall i :: 0 <= i < |service| ==> service[i] != ':'
    ensures var x := host + ":" + service;
            && Plain(x) && x[0] == host[0] && FindLast(x, 0, |x|, ':') == |host| && x[|host|] == ':'
            && x[..|host|] == host && x[|host| + 1..] == service
  {
    var x := host + ":" + service;
    assert forall i :: 0 <= i < |host| ==> x[i] == host[i];
    assert x[|host|] == ':';
    assert forall i :: |host| < i < |x| ==> x[i] == service[i - |host| - 1];
  }

  // ----- a peer -----

  predicate PrintablePeer(p: Peer, names: Names) {
    && p.publicKey.Some? && PrintableIps(p.allowedIps, names)
    && (p.endpoint.Some? ==> PrintableEndpoint(p.endpoint.value, names))
    && NumberOr0(p.keepalive) <= 0xffff
  }

  /** What is read back of a peer: a keepalive of zero is not printed, and a peer
      of a file replaces its allowed addresses. */
  function PeerReadBack(p: Peer): Peer {
    p.(replaceAllowedIps := true, keepalive := if Nonzero(p.keepalive) then p.keepalive else None)
  }

  /** The context c with p as its last peer. */
  predicate AtPeer(c: Context, p: Peer) {
    Valid(c) && c.section == InPeer && LastPeer(c) == p
  }

  lemma PeerKeyNames()
    ensures PeerKey(0) == "Endpoint" && PeerKey(1) == "PublicKey" && PeerKey(2) == "AllowedIPs"
    ensures PeerKey(3) == "PersistentKeepalive" && PeerKey(4) == "PresharedKey" && PeerKey(5) == "AdvancedSecurity"
  {
  }

  lemma ReadsPeerValue(c: Context, k: nat, value: string, p: Peer, names: Names)
    requires Valid(c) && c.section == InPeer && k < 6 && value != [] && Plain(value)
    requires StoreInPeer(LastPeer(c), k, value, names) == Some(p)
    ensures ReadLines(c, [Assign(PeerKey(k), value)], names) == Some(WithLastPeer(c, p))
  {
    hide PeerKey, StoreInPeer, ReadLines, Clean, IsSpecial;
    PeerKeyPlain(k);
    CleanAssign(PeerKey(k), value);
    ReadsPeerKey(c, k, value, value, p, names);
  }

  lemma LastSetTwice(c: Context, p: Peer, q: Peer)
    requires |c.device.peers| > 0
    ensures WithLastPeer(WithLastPeer(c, p), q) == WithLastPeer(c, q) && LastPeer(WithLastPeer(c, p)) == p
    ensures WithLastPeer(c, LastPeer(c)) == c
  {
  }

  /** The keys of a peer. */
  lemma ReadsPeerKeys(c: Context, p: Peer, names: Names)
    requires AtPeer(c, EmptyPeer()) && p.publicKey.Some?
    ensures ReadLines(c, [Assign("PublicKey", Base64(KeyOrZero(p.publicKey)))]
                         + Optional(p.presharedKey.Some?, Assign("PresharedKey", Base64(KeyOrZero(p.presharedKey)))),
                      names)
            == Some(WithLastPeer(c, EmptyPeer().(publicKey := p.publicKey, presharedKey := p.presharedKey)))
  {
    hide ReadLines, Base64, PeerKey, Optional, Assign, ParseKey;
    PeerKeyNames();
    var p1 := EmptyPeer().(publicKey := p.publicKey);
    var p2 := p1.(presharedKey := p.presharedKey);
    var c1, c2 := WithLastPeer(c, p1), WithLastPeer(c, p2);
    KeyStored(p.publicKey.value);
    ReadsPeerValue(c, 1, Base64(p.publicKey.value), p1, names);
    LastSetTwice(c, p1, p2);
    LastSetTwice(c1, p1, p2);
    KeyStored(KeyOrZero(p.presharedKey));
    if p.presharedKey.Some? {
      ReadsPeerValue(c1, 4, Base64(p.presharedKey.value), p2, names);
    }
    ReadsOptional(c1, p.presharedKey.Some?, Assign("PresharedKey", Base64(KeyOrZero(p.presharedKey))), c2, names);
    ReadsJoin(c, [Assign("PublicKey", Base64(KeyOrZero(p.publicKey)))],
              Optional(p.presharedKey.Some?, Assign("PresharedKey", Base64(KeyOrZero(p.presharedKey)))), c1, names);
  }

  lemma ReadsSwitch(c: Context, p: Peer, b: Option<bool>, names: Names)
    requires AtPeer(c, p) && p.awg.None?
    ensures ReadLines(c, Optional(b.Some?, Assign("AdvancedSecurity", if b.Some? && b.value then "on" else "off")),
                      names)
            == Some(WithLastPeer(c, p.(awg := b)))
  {
    hide ReadLines, PeerKey, Optional, Assign, ParseBool;
    PeerKeyNames();
    LastSetTwice(c, p, p);
    var s := if b.Some? && b.value then "on" else "off";
    SwitchStored(b.Some? && b.value);
    if b.Some? {
      ReadsPeerValue(c, 5, s, p.(awg := b), names);
    }
    ReadsOptional(c, b.Some?, Assign("AdvancedSecurity", s), WithLastPeer(c, p.(awg := b)), names);
  }

  lemma ReadsAllowed(c: Context, p: Peer, ips: seq<AllowedIp>, names: Names)
    requires AtPeer(c, p) && p.allowedIps == [] && p.replaceAllowedIps && PrintableIps(ips, names)
    ensures ReadLines(c, Optional(ips != [], Assign("AllowedIPs", AllowedList(ips, names))), names)
            == Some(WithLastPeer(c, p.(allowedIps := ips)))
  {
    hide ReadLines, PeerKey, Optional, Assign, Compact, AllowedList, ParseAllowedIps, PrintableIps, Clean, IsSpecial;
    PeerKeyNames();
    LastSetTwice(c, p, p);
    if ips != [] {
      ListReads(ips, names);
      ListCompacts(ips, names);
      PeerKeyPlain(2);
      CleanList(PeerKey(2), AllowedList(ips, names), Compact(ips, names));
      assert p.allowedIps + ips == ips;
      ReadsPeerKey(c, 2, Compact(ips, names), AllowedList(ips, names), p.(allowedIps := ips), names);
    }
    ReadsOptional(c, ips != [], Assign("AllowedIPs", AllowedList(ips, names)), WithLastPeer(c, p.(allowedIps := ips)),
                  names);
  }

  lemma ReadsEndpoint(c: Context, p: Peer, e: Option<SocketAddress>, names: Names)
    requires AtPeer(c, p) && p.endpoint.None? && (e.Some? ==> PrintableEndpoint(e.value, names))
    ensures ReadLines(c, if e.Some? then [Assign("Endpoint", EndpointText(e.value, names))] else [], names)
            == Some(WithLastPeer(c, p.(endpoint := e)))
  {
    hide ReadLines, PeerKey, Assign, ParseEndpoint, EndpointText, PrintableEndpoint;
    PeerKeyNames();
    LastSetTwice(c, p, p);
    if e.Some? {
      EndpointReads(e.value, names);
      ReadsPeerValue(c, 0, EndpointText(e.value, names), p.(endpoint := e), names);
    } else {
      NoLines(c, names);
    }
  }

  lemma ReadsKeepalive(c: Context, p: Peer, n: Option<nat>, names: Names)
    requires AtPeer(c, p) && p.keepalive.None? && NumberOr0(n) <= 0xffff
    ensures ReadLines(c, Optional(Nonzero(n), Assign("PersistentKeepalive", Decimal(NumberOr0(n)))), names)
            == Some(WithLastPeer(c, p.(keepalive := if Nonzero(n) then n else None)))
  {
    hide ReadLines, PeerKey, Optional, Assign, ParseKeepalive, Decimal;
    PeerKeyNames();
    LastSetTwice(c, p, p);
    NumberStored(NumberOr0(n));
    var q := p.(keepalive := if Nonzero(n) then n else None);
    if Nonzero(n) {
      ReadsPeerValue(c, 3, Decimal(n.value), q, names);
    }
    ReadsOptional(c, Nonzero(n), Assign("PersistentKeepalive", Decimal(NumberOr0(n))), WithLastPeer(c, q), names);
  }

  /** Two stretches of lines about the last peer. */
  lemma PeerJoin(c: Context, a: seq<string>, b: seq<string>, p: Peer, q: Peer, names: Names)
    requires Valid(c) && c.section == InPeer
    requires ReadLines(c, a, names) == Some(WithLastPeer(c, p))
    requires ReadLines(WithLastPeer(c, p), b, names) == Some(WithLastPeer(WithLastPeer(c, p), q))
    ensures ReadLines(c, a + b, names) == Some(WithLastPeer(c, q))
  {
    hide ReadLines;
    LastSetTwice(c, p, q);
    ReadsJoin(c, a, b, WithLastPeer(c, p), names);
  }

  lemma ReadsPeerBody(c: Context, p: Peer, names: Names)
    requires AtPeer(c, EmptyPeer()) && PrintablePeer(p, names)
    ensures ReadLines(c, PeerBody(p, names), names) == Some(WithLastPeer(c, PeerReadBack(p)))
  {
    hide ReadLines, Optional, Assign, Base64, Decimal, AllowedList, EndpointText, PrintableIps, PrintableEndpoint;
    var p2 := EmptyPeer().(publicKey := p.publicKey, presharedKey := p.presharedKey);
    var p3 := p2.(awg := p.awg);
    var p4 := p3.(allowedIps := p.allowedIps);
    var p5 := p4.(endpoint := p.endpoint);
    var p6 := p5.(keepalive := if Nonzero(p.keepalive) then p.keepalive else None);
    assert p6 == PeerReadBack(p);
    var a := [Assign("PublicKey", Base64(KeyOrZero(p.publicKey)))]
             + Optional(p.presharedKey.Some?, Assign("PresharedKey", Base64(KeyOrZero(p.presharedKey))));
    var b := Optional(p.awg.Some?, Assign("AdvancedSecurity", if p.awg.Some? && p.awg.value then "on" else "off"));
    var d := Optional(p.allowedIps != [], Assign("AllowedIPs", AllowedList(p.allowedIps, names)));
    var e := if p.endpoint.Some? then [Assign("Endpoint", EndpointText(p.endpoint.value, names))] else [];
    var f := Optional(Nonzero(p.keepalive), Assign("PersistentKeepalive", Decimal(NumberOr0(p.keepalive))));
    ReadsPeerKeys(c, p, names);
    ReadsSwitch(WithLastPeer(c, p2), p2, p.awg, names);
    PeerJoin(c, a, b, p2, p3, names);
    ReadsAllowed(WithLastPeer(c, p3), p3, p.allowedIps, names);
    PeerJoin(c, a + b, d, p3, p4, names);
    ReadsEndpoint(WithLastPeer(c, p4), p4, p.endpoint, names);
    PeerJoin(c, a + b + d, e, p4, p5, names);
    ReadsKeepalive(WithLastPeer(c, p5), p5, p.keepalive, names);
    PeerJoin(c, a + b + d + e, f, p5, p6, names);
    assert PeerBody(p, names) == a + b + d + e + f;
  }

  // ----- the peers -----

  function PeersReadBack(peers: seq<Peer>): (r: seq<Peer>)
    ensures |r| == |peers| && forall i :: 0 <= i < |r| ==> r[i] == PeerReadBack(peers[i])
  {
    seq(|peers|, i requires 0 <= i < |peers| => PeerReadBack(peers[i]))
  }

  lemma ReadsHeader(c: Context, header: string, m: Context, names: Names)
    requires Valid(c) && Valid(m) && Plain(header) && |header| >= 2 && header[0] == '['
    requires ProcessLine(c, header, names) == Some(m)
    ensures ReadLines(c, [header], names) == Some(m)
  {
    hide ProcessLine, ReadLines, RemoveSpaces, IsSpecial;
    NotSpecial(header + "\n");
    NoHashFound(header + "\n");
    RemoveSpacesJoin(header, "\n");
    RemoveSpacesSolid(header);
    Blanks();
    assert Clean(header + "\n") == header;
    OneLine(c, header, names);
  }

  lemma ReadsBlank(c: Context, names: Names)
    requires Valid(c)
    ensures ReadLines(c, [""], names) == Some(c)
  {
    hide ReadLines, RemoveSpaces;
    assert "" + "\n" == "\n";
    NoHashFound("\n");
    Blanks();
    OneLine(c, "", names);
  }

  function WithPeers(c: Context, peers: seq<Peer>): Context {
    Context(c.device.(peers := c.device.peers + peers), InPeer)
  }

  /** One peer: its header, its fields and, unless it is the last, a blank line. */
  lemma ReadsOnePeer(c: Context, p: Peer, more: bool, names: Names)
    requires Valid(c) && PrintablePeer(p, names)
    ensures ReadLines(c, ["[Peer]"] + PeerBody(p, names) + (if more then [""] else []), names)
            == Some(WithPeers(c, [PeerReadBack(p)]))
  {
    hide ReadLines, PeerBody, PrintablePeer, PeerReadBack, EmptyPeer;
    var c1, c2 := WithPeers(c, [EmptyPeer()]), WithPeers(c, [PeerReadBack(p)]);
    assert "[Peer]"[0] == '[' && |"[Peer]"| != |"[Interface]"|;
    ReadsHeader(c, "[Peer]", c1, names);
    ReadsPeerBody(c1, p, names);
    assert WithLastPeer(c1, PeerReadBack(p)) == c2;
    ReadsJoin(c, ["[Peer]"], PeerBody(p, names), c1, names);
    ReadsBlank(c2, names);
    NoLines(c2, names);
    ReadsJoin(c, ["[Peer]"] + PeerBody(p, names), if more then [""] else [], c2, names);
  }

  lemma {:induction false} ReadsPeers(c: Context, peers: seq<Peer>, names: Names)
    requires Valid(c) && forall i :: 0 <= i < |peers| ==> PrintablePeer(peers[i], names)
    ensures ReadLines(c, PeerLines(peers, names), names)
            == Some(if peers == [] then c else WithPeers(c, PeersReadBack(peers)))
    decreases |peers|
  {
    hide ReadLines, PeerBody, PrintablePeer, PeerReadBack, WithPeers, Valid;
    if peers == [] {
      NoLines(c, names);
    } else {
      var a := ["[Peer]"] + PeerBody(peers[0], names) + (if |peers| > 1 then [""] else []);
      var m := WithPeers(c, [PeerReadBack(peers[0])]);
      WithPeersValid(c, [PeerReadBack(peers[0])]);
      ReadsOnePeer(c, peers[0], |peers| > 1, names);
      ReadsPeers(m, peers[1..], names);
      ReadsJoin(c, a, PeerLines(peers[1..], names), m, names);
      assert PeersReadBack(peers) == [PeerReadBack(peers[0])] + PeersReadBack(peers[1..]);
      WithPeersTwice(c, [PeerReadBack(peers[0])], PeersReadBack(peers[1..]));
    }
  }

  lemma WithPeersValid(c: Context, a: seq<Peer>)
    requires Valid(c) && a != []
    ensures Valid(WithPeers(c, a))
  {
  }

  lemma WithPeersTwice(c: Context, a: seq<Peer>, b: seq<Peer>)
    ensures WithPeers(WithPeers(c, a), b) == WithPeers(c, a + b)
    ensures b == [] ==> WithPeers(c, a) == WithPeers(c, a + b)
  {
    assert c.device.peers + a + b == c.device.peers + (a + b);
    assert b == [] ==> a + b == a;
  }

  // ----- the device -----

  predicate PrintableText(i: nat, s: string) {
    s != [] && |s| < MAX_AWG_STRING_LEN && NoHash(s)
    && if i < 4 then Solid(s) else Trimmed(s) && forall k :: 0 <= k < |s| ==> s[k] != '\n'
  }

  /** A device whose file says all there is to say: H strings without blanks,
      I strings without blanks at their ends, no comment sign in either, and
      addresses that the library can read back. */
  predicate Printable(d: Device, names: Names) {
    && Formed(d)
    && (Nonzero(d.listenPort) ==> var t := Decimal(d.listenPort.value); names.port(t) == Some(d.listenPort.value))
    && NumberOr0(d.fwmark) <= 0xffff_ffff
    && (forall i :: 0 <= i < NUMBERS ==> NumberOr0(d.numbers[i]) <= 0xffff)
    && (forall i :: 0 <= i < TEXTS && d.texts[i].Some? ==> PrintableText(i, d.texts[i].value))
    && forall i :: 0 <= i < |d.peers| ==> PrintablePeer(d.peers[i], names)
  }

  /** What is read back of a device: zeros are not printed, and a file that
      replaces the configuration also clears what it does not mention. */
  function ReadBack(d: Device, append: bool): Device {
    Device(!append,
           if Nonzero(d.listenPort) then d.listenPort else None,
           if Nonzero(d.fwmark) then d.fwmark else if append then None else Some(0),
           if d.privateKey.Some? then d.privateKey else if append then None else Some(ZeroKey()),
           d.numbers, d.texts, PeersReadBack(d.peers))
  }

  lemma ReadsDeviceValue(c: Context, k: nat, value: string, d: Device, names: Names)
    requires Valid(c) && c.section == InDevice && k < 14 && value != [] && Plain(value)
    requires StoreInDevice(c.device, k, value, names) == Some(d)
    ensures ReadLines(c, [Assign(DeviceKey(k), value)], names) == Some(c.(device := d))
  {
    hide DeviceKey, StoreInDevice, ReadLines, Clean, IsSpecial;
    DeviceKeyPlain(k);
    CleanAssign(DeviceKey(k), value);
    ReadsDeviceKey(c, k, value, value, d, names);
  }

  lemma ReadsDeviceSpecial(c: Context, k: nat, value: string, d: Device, names: Names)
    requires Valid(c) && c.section == InDevice && 14 <= k < 19 && NoHash(value) && Trimmed(value)
    requires StoreInDevice(c.device, k, value, names) == Some(d)
    ensures ReadLines(c, [Assign(DeviceKey(k), value)], names) == Some(c.(device := d))
  {
    hide DeviceKey, StoreInDevice, ReadLines, Clean, IsSpecial;
    DeviceKeyPlain(k);
    CleanSpecialAssign(DeviceKey(k), value);
    ReadsDeviceKey(c, k, value, value, d, names);
  }

  /** Jc to S4. */
  lemma {:induction false} ReadsNumbers(c: Context, d: Device, i: nat, names: Names)
    requires Valid(c) && c.section == InDevice && Formed(d) && i <= NUMBERS
    requires forall k :: 0 <= k < NUMBERS ==> NumberOr0(d.numbers[k]) <= 0xffff
    requires c.device.numbers[..i] == d.numbers[..i] && forall k :: i <= k < NUMBERS ==> c.device.numbers[k] == None
    ensures ReadLines(c, NumberLines(d, i), names) == Some(c.(device := c.device.(numbers := d.numbers)))
    decreases NUMBERS - i
  {
    hide ReadLines, Assign, Decimal, DeviceKey, ParseNumber;
    if i == NUMBERS {
      NoLines(c, names);
      assert c.device.numbers[..i] == c.device.numbers && d.numbers[..i] == d.numbers;
    } else {
      var e := c.device.(numbers := c.device.numbers[i := d.numbers[i]]);
      var m := c.(device := e);
      var line := if d.numbers[i].Some? then [Assign(DeviceKey(3 + i), Decimal(d.numbers[i].value))] else [];
      if d.numbers[i].Some? {
        NumberStored(d.numbers[i].value);
        ReadsDeviceValue(c, 3 + i, Decimal(d.numbers[i].value), e, names);
      } else {
        NoLines(c, names);
        assert e.numbers == c.device.numbers;
      }
      assert e.numbers[..i + 1] == c.device.numbers[..i] + [d.numbers[i]] == d.numbers[..i + 1];
      ReadsNumbers(m, d, i + 1, names);
      ReadsJoin(c, line, NumberLines(d, i + 1), m, names);
    }
  }

  /** H1 to I5. */
  lemma {:induction false} ReadsTexts(c: Context, d: Device, i: nat, names: Names)
    requires Valid(c) && c.section == InDevice && Formed(d) && i <= TEXTS
    requires forall k :: 0 <= k < TEXTS && d.texts[k].Some? ==> PrintableText(k, d.texts[k].value)
    requires c.device.texts[..i] == d.texts[..i] && forall k :: i <= k < TEXTS ==> c.device.texts[k] == None
    ensures ReadLines(c, TextLines(d, i), names) == Some(c.(device := c.device.(texts := d.texts)))
    decreases TEXTS - i
  {
    hide ReadLines, Assign, DeviceKey, Trimmed, Solid, NoHash;
    if i == TEXTS {
      NoLines(c, names);
      assert c.device.texts[..i] == c.device.texts && d.texts[..i] == d.texts;
    } else {
      var e := c.device.(texts := c.device.texts[i := d.texts[i]]);
      var m := c.(device := e);
      var line := if d.texts[i].Some? then [Assign(DeviceKey(10 + i), d.texts[i].value)] else [];
      if d.texts[i].Some? {
        if i < 4 {
          ReadsDeviceValue(c, 10 + i, d.texts[i].value, e, names);
        } else {
          ReadsDeviceSpecial(c, 10 + i, d.texts[i].value, e, names);
        }
      } else {
        NoLines(c, names);
        assert e.texts == c.device.texts;
      }
      assert e.texts[..i + 1] == c.device.texts[..i] + [d.texts[i]] == d.texts[..i + 1];
      ReadsTexts(m, d, i + 1, names);
      ReadsJoin(c, line, TextLines(d, i + 1), m, names);
    }
  }

  lemma DeviceKeyNames()
    ensures DeviceKey(0) == "ListenPort" && DeviceKey(1) == "FwMark" && DeviceKey(2) == "PrivateKey"
  {
  }

  /** The three settings that every WireGuard device has. */
  lemma ReadsBasics(c: Context, d: Device, append: bool, names: Names)
    requires Printable(d, names) && c == Start(append).(section := InDevice)
    ensures ReadLines(c, Optional(Nonzero(d.listenPort), Assign("ListenPort", Decimal(NumberOr0(d.listenPort))))
                         + Optional(Nonzero(d.fwmark), Assign("FwMark", "0x" + Hexadecimal(NumberOr0(d.fwmark))))
                         + Optional(d.privateKey.Some?, Assign("PrivateKey", Base64(KeyOrZero(d.privateKey)))), names)
            == Some(c.(device := c.device.(listenPort := ReadBack(d, append).listenPort,
                                           fwmark := ReadBack(d, append).fwmark,
                                           privateKey := ReadBack(d, append).privateKey)))
  {
    hide ReadLines, Optional, Assign, Base64, Decimal, Hexadecimal, DeviceKey, ParseKey, ParseFwmark, PrintablePeer,
         ZeroKey;
    DeviceKeyNames();
    var r := ReadBack(d, append);
    var d1 := c.device.(listenPort := r.listenPort);
    var d2 := d1.(fwmark := r.fwmark);
    var d3 := d2.(privateKey := r.privateKey);
    var c1, c2, c3 := c.(device := d1), c.(device := d2), c.(device := d3);
    var l1, l2, l3 := Assign("ListenPort", Decimal(NumberOr0(d.listenPort))),
                      Assign("FwMark", "0x" + Hexadecimal(NumberOr0(d.fwmark))),
                      Assign("PrivateKey", Base64(KeyOrZero(d.privateKey)));
    if Nonzero(d.listenPort) {
      DecimalReads(d.listenPort.value);
      DigitsPlain(Decimal(d.listenPort.value));
      ReadsDeviceValue(c, 0, Decimal(d.listenPort.value), d1, names);
    }
    ReadsOptional(c, Nonzero(d.listenPort), l1, c1, names);
    if Nonzero(d.fwmark) {
      FwmarkStored(d.fwmark.value);
      ReadsDeviceValue(c1, 1, "0x" + Hexadecimal(d.fwmark.value), d2, names);
    }
    ReadsOptional(c1, Nonzero(d.fwmark), l2, c2, names);
    if d.privateKey.Some? {
      KeyStored(d.privateKey.value);
      ReadsDeviceValue(c2, 2, Base64(d.privateKey.value), d3, names);
    }
    ReadsOptional(c2, d.privateKey.Some?, l3, c3, names);
    var a, b, e := Optional(Nonzero(d.listenPort), l1), Optional(Nonzero(d.fwmark), l2),
        Optional(d.privateKey.Some?, l3);
    ReadsJoin(c, a, b, c1, names);
    ReadsJoin(c, a + b, e, c2, names);
  }

  lemma ReadsInterface(c: Context, m: Context, d: Device, append: bool, names: Names)
    requires Printable(d, names) && c == Start(append).(section := InDevice)
    requires m == c.(device := ReadBack(d, append).(peers := []))
    ensures ReadLines(c, Optional(Nonzero(d.listenPort), Assign("ListenPort", Decimal(NumberOr0(d.listenPort))))
                         + Optional(Nonzero(d.fwmark), Assign("FwMark", "0x" + Hexadecimal(NumberOr0(d.fwmark))))
                         + Optional(d.privateKey.Some?, Assign("PrivateKey", Base64(KeyOrZero(d.privateKey))))
                         + NumberLines(d, 0) + TextLines(d, 0), names)
            == Some(m)
  {
    hide ReadLines, Optional, Assign, Base64, Decimal, Hexadecimal, NumberLines, TextLines, PrintablePeer,
         PrintableText, ZeroKey;
    var basics := Optional(Nonzero(d.listenPort), Assign("ListenPort", Decimal(NumberOr0(d.listenPort))))
                  + Optional(Nonzero(d.fwmark), Assign("FwMark", "0x" + Hexadecimal(NumberOr0(d.fwmark))))
                  + Optional(d.privateKey.Some?, Assign("PrivateKey", Base64(KeyOrZero(d.privateKey))));
    var r := ReadBack(d, append);
    var d1 := c.device.(listenPort := r.listenPort, fwmark := r.fwmark, privateKey := r.privateKey);
    var c1 := c.(device := d1);
    var c2 := c.(device := d1.(numbers := d.numbers));
    ReadsBasics(c, d, append, names);
    ReadsNumbers(c1, d, 0, names);
    ReadsJoin(c, basics, NumberLines(d, 0), c1, names);
    ReadsTexts(c2, d, 0, names);
    ReadsJoin(c, basics + NumberLines(d, 0), TextLines(d, 0), c2, names);
    assert m == c2.(device := c2.device.(texts := d.texts));
  }

  /** Reading what showconf prints rebuilds the device, its peers, their allowed
      addresses and all orders. */
  lemma LinesReadBack(d: Device, append: bool, names: Names)
    requires Printable(d, names)
    ensures ReadLines(Start(append), ShowConf(d, names), names).Some?
    ensures Finish(ReadLines(Start(append), ShowConf(d, names), names).value) == Some(ReadBack(d, append))
  {
    hide ReadLines, Optional, Assign, Base64, Decimal, Hexadecimal, NumberLines, TextLines, PeerLines, ZeroKey,
         PrintableText;
    var s := Start(append);
    var c := s.(section := InDevice);
    var m := c.(device := ReadBack(d, append).(peers := []));
    var interface := Optional(Nonzero(d.listenPort), Assign("ListenPort", Decimal(NumberOr0(d.listenPort))))
                     + Optional(Nonzero(d.fwmark), Assign("FwMark", "0x" + Hexadecimal(NumberOr0(d.fwmark))))
                     + Optional(d.privateKey.Some?, Assign("PrivateKey", Base64(KeyOrZero(d.privateKey))))
                     + NumberLines(d, 0) + TextLines(d, 0);
    assert "[Interface]"[0] == '[';
    ReadsHeader(s, "[Interface]", c, names);
    ReadsInterface(c, m, d, append, names);
    ReadsJoin(s, ["[Interface]"], interface, c, names);
    ReadsBlank(m, names);
    ReadsJoin(s, ["[Interface]"] + interface, [""], m, names);
    ReadsPeers(m, d.peers, names);
    ReadsJoin(s, ["[Interface]"] + interface + [""], PeerLines(d.peers, names), m, names);
    assert ShowConf(d, names) == ["[Interface]"] + interface + [""] + PeerLines(d.peers, names);
    assert [] + PeersReadBack(d.peers) == PeersReadBack(d.peers);
    assert d.peers == [] ==> PeersReadBack(d.peers) == [];
  }

  // ----- the text -----

  predicate OneRow(s: string) {
    forall i :: 0 <= i < |s| ==> s[i] != '\n'
  }

  /** The text printed: every line with its newline. */
  function Text(lines: seq<string>): string {
    if lines == [] then [] else lines[0] + "\n" + Text(lines[1..])
  }

  /** getline until the end of the file. */
  function SplitLines(text: string): seq<string>
    decreases |text|
  {
    if text == [] then []
    else
      var end := Find(text, 0, |text|, '\n');
      [text[..end]] + if end == |text| then [] else SplitLines(text[end + 1..])
  }

  lemma {:induction false} SplitText(lines: seq<string>)
    requires forall i :: 0 <= i < |lines| ==> OneRow(lines[i])
    ensures SplitLines(Text(lines)) == lines
  {
    if lines != [] {
      var text, rest := Text(lines), Text(lines[1..]);
      SplitText(lines[1..]);
      assert forall i :: 0 <= i < |lines[0]| ==> text[i] == lines[0][i];
      assert text[|lines[0]|] == '\n';
      assert Find(text, 0, |text|, '\n') == |lines[0]|;
      assert text[..|lines[0]|] == lines[0] && text[|lines[0]| + 1..] == rest;
    }
  }

  predicate Rows(lines: seq<string>) {
    forall i :: 0 <= i < |lines| ==> OneRow(lines[i])
  }

  lemma AssignRow(key: string, value: string)
    requires Plain(key) && OneRow(value)
    ensures OneRow(Assign(key, value))
  {
    assert forall i :: 0 <= i < |" = "| ==> " = "[i] != '\n';
  }

  lemma PlainRow(s: string)
    requires Plain(s)
    ensures OneRow(s)
  {
  }

  lemma {:induction false} ListRow(ips: seq<AllowedIp>, names: Names)
    requires PrintableIps(ips, names)
    ensures OneRow(AllowedList(ips, names))
  {
    hide AllowedText, PrintableIp;
    if ips != [] {
      EntryReads(ips[0], names);
      if |ips| > 1 {
        ListRow(ips[1..], names);
      }
    }
  }

  lemma OptionalRow(b: bool, key: string, value: string)
    requires Plain(key) && (b ==> OneRow(value))
    ensures Rows(Optional(b, Assign(key, value)))
  {
    hide Assign;
    if b {
      AssignRow(key, value);
    }
  }

  lemma KeyRows(p: Peer)
    ensures Rows([Assign("PublicKey", Base64(KeyOrZero(p.publicKey)))]
                 + Optional(p.presharedKey.Some?, Assign("PresharedKey", Base64(KeyOrZero(p.presharedKey)))))
  {
    hide Optional, Assign, Base64, PeerKey, OneRow;
    PeerKeyNames();
    PeerKeyPlain(1);
    PeerKeyPlain(4);
    KeyStored(KeyOrZero(p.publicKey));
    PlainRow(Base64(KeyOrZero(p.publicKey)));
    AssignRow(PeerKey(1), Base64(KeyOrZero(p.publicKey)));
    KeyStored(KeyOrZero(p.presharedKey));
    PlainRow(Base64(KeyOrZero(p.presharedKey)));
    OptionalRow(p.presharedKey.Some?, PeerKey(4), Base64(KeyOrZero(p.presharedKey)));
  }

  lemma EndpointRow(e: Option<SocketAddress>, names: Names)
    requires e.Some? ==> PrintableEndpoint(e.value, names)
    ensures Rows(if e.Some? then [Assign("Endpoint", EndpointText(e.value, names))] else [])
  {
    hide Assign, PeerKey, EndpointText, PrintableEndpoint, OneRow;
    PeerKeyNames();
    PeerKeyPlain(0);
    if e.Some? {
      EndpointReads(e.value, names);
      PlainRow(EndpointText(e.value, names));
      AssignRow(PeerKey(0), EndpointText(e.value, names));
    }
  }

  lemma SettingRows(p: Peer)
    requires NumberOr0(p.keepalive) <= 0xffff
    ensures Rows(Optional(p.awg.Some?, Assign("AdvancedSecurity", if p.awg.Some? && p.awg.value then "on" else "off")))
    ensures Rows(Optional(Nonzero(p.keepalive), Assign("PersistentKeepalive", Decimal(NumberOr0(p.keepalive)))))
  {
    hide Optional, Assign, PeerKey, OneRow, Decimal, Rows;
    PeerKeyNames();
    PeerKeyPlain(3);
    PeerKeyPlain(5);
    SwitchStored(p.awg.Some? && p.awg.value);
    PlainRow(if p.awg.Some? && p.awg.value then "on" else "off");
    OptionalRow(p.awg.Some?, PeerKey(5), if p.awg.Some? && p.awg.value then "on" else "off");
    NumberStored(NumberOr0(p.keepalive));
    PlainRow(Decimal(NumberOr0(p.keepalive)));
    OptionalRow(Nonzero(p.keepalive), PeerKey(3), Decimal(NumberOr0(p.keepalive)));
  }

  lemma PeerRows(p: Peer, names: Names)
    requires PrintablePeer(p, names)
    ensures Rows(PeerBody(p, names))
  {
    hide Optional, Assign, Base64, Decimal, AllowedList, EndpointText, PrintableIps, PrintableEndpoint, OneRow, PeerKey;
    PeerKeyNames();
    PeerKeyPlain(2);
    KeyRows(p);
    SettingRows(p);
    ListRow(p.allowedIps, names);
    OptionalRow(p.allowedIps != [], PeerKey(2), AllowedList(p.allowedIps, names));
    EndpointRow(p.endpoint, names);
  }

  lemma {:induction false} PeersRows(peers: seq<Peer>, names: Names)
    requires forall i :: 0 <= i < |peers| ==> PrintablePeer(peers[i], names)
    ensures Rows(PeerLines(peers, names))
  {
    hide PeerBody, PrintablePeer;
    if peers != [] {
      PeerRows(peers[0], names);
      PeersRows(peers[1..], names);
      assert OneRow("[Peer]") && OneRow("");
    }
  }

  lemma {:induction false} NumberRows(d: Device, i: nat)
    requires Formed(d) && i <= NUMBERS && forall k :: 0 <= k < NUMBERS ==> NumberOr0(d.numbers[k]) <= 0xffff
    ensures Rows(NumberLines(d, i))
    decreases NUMBERS - i
  {
    hide DeviceKey, Decimal, Assign, OneRow;
    if i < NUMBERS {
      NumberRows(d, i + 1);
      DeviceKeyPlain(3 + i);
      NumberStored(NumberOr0(d.numbers[i]));
      PlainRow(Decimal(NumberOr0(d.numbers[i])));
      AssignRow(DeviceKey(3 + i), Decimal(NumberOr0(d.numbers[i])));
    }
  }

  lemma {:induction false} TextRows(d: Device, i: nat)
    requires Formed(d) && i <= TEXTS
    requires forall k :: 0 <= k < TEXTS && d.texts[k].Some? ==> PrintableText(k, d.texts[k].value)
    ensures Rows(TextLines(d, i))
    decreases TEXTS - i
  {
    hide DeviceKey, Assign;
    if i < TEXTS {
      TextRows(d, i + 1);
      DeviceKeyPlain(10 + i);
      if d.texts[i].Some? {
        AssignRow(DeviceKey(10 + i), d.texts[i].value);
      }
    }
  }

  lemma ShowRows(d: Device, names: Names)
    requires Printable(d, names)
    ensures Rows(ShowConf(d, names))
  {
    hide Optional, Assign, Base64, Decimal, Hexadecimal, NumberLines, TextLines, PeerLines, DeviceKey, PrintablePeer,
         PrintableText;
    DeviceKeyNames();
    forall k: nat | k < 3
      ensures Plain(DeviceKey(k))
    {
      DeviceKeyPlain(k);
    }
    var port, mark, key := NumberOr0(d.listenPort), NumberOr0(d.fwmark), KeyOrZero(d.privateKey);
    DecimalReads(port);
    DigitsPlain(Decimal(port));
    OptionalRow(Nonzero(d.listenPort), DeviceKey(0), Decimal(port));
    FwmarkStored(mark);
    OptionalRow(Nonzero(d.fwmark), DeviceKey(1), "0x" + Hexadecimal(mark));
    KeyStored(key);
    OptionalRow(d.privateKey.Some?, DeviceKey(2), Base64(key));
    NumberRows(d, 0);
    TextRows(d, 0);
    PeersRows(d.peers, names);
    assert OneRow("[Interface]") && OneRow("");
    hide OneRow;
    assert Rows(["[Interface]"]) && Rows([""]);
  }

  /** The whole text that showconf prints, read as a file, gives the device back. */
  lemma TextReadBack(d: Device, append: bool, names: Names)
    requires Printable(d, names)
    ensures ReadLines(Start(append), SplitLines(Text(ShowConf(d, names))), names).Some?
    ensures Finish(ReadLines(Start(append), SplitLines(Text(ShowConf(d, names))), names).value)
        == Some(ReadBack(d, append))
  {
    hide ShowConf, ReadLines, Text, SplitLines, ReadBack, PrintablePeer, PrintableText;
    ShowRows(d, names);
    SplitText(ShowConf(d, names));
    LinesReadBack(d, append, names);
  }
}
