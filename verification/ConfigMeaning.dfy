/** What the values and lines of a configuration file mean, key by key, also in the
    forms that showconf never prints. */
module ConfigMeaning {
  import opened Options
  import opened KeyText
  import opened AddressGrammar
  import opened TextCuts
  import opened ConfigText
  import opened ConfigFile
  import opened ConfigRoundTrip

  // ----- numbers -----

  function Cut(n: int): int {
    if n > 0xffff_ffff_ffff_ffff then 0xffff_ffff_ffff_ffff else n
  }

  lemma DigitNotSpace(c: char)
    requires IsHexadecimal(c)
    ensures !IsSpace(c) && c != '-' && c != '+'
  {
  }

  /** strtoul on digits alone. */
  lemma StrtoulDigits(s: string)
    requires s != [] && Digits(s)
    ensures DecimalValue(s) >= 0 && Strtoul(s, false) == (Cut(DecimalValue(s)), |s|)
  {
    hide DecimalValue;
    NumberNonnegative(s, false);
    assert IsDecimal(s[0]);
    DigitNotSpace(s[0]);
    assert SkipSpaces(s, 0) == 0 && DigitRun(s, 0, false) == |s|;
    assert s[0..|s|] == s;
  }

  /** With a sign in front, a minus counts modulo 2^64. */
  lemma StrtoulSigned(s: string, minus: bool)
    requires s != [] && Digits(s)
    ensures var v := DecimalValue(s);
            && v >= 0
            && Strtoul([if minus then '-' else '+'] + s, false)
               == (if minus && 0 < v <= 0xffff_ffff_ffff_ffff then 0x1_0000_0000_0000_0000 - v else Cut(v), |s| + 1)
  {
    NumberNonnegative(s, false);
    var x := [if minus then '-' else '+'] + s;
    SignedRun(x, s, minus);
    StrtoulAfterSign(x, minus, DecimalValue(s));
  }

  lemma StrtoulAfterSign(x: string, minus: bool, v: int)
    requires |x| > 1 && x[0] == (if minus then '-' else '+') && v >= 0
    requires SkipSpaces(x, 0) == 0 && DigitRun(x, 1, false) == |x| && RunValue(x, 1, |x|, false) == v
    ensures Strtoul(x, false)
        == (if minus && 0 < v <= 0xffff_ffff_ffff_ffff then 0x1_0000_0000_0000_0000 - v else Cut(v), |x|)
  {
    hide RunValue, DigitRun, SkipSpaces;
    Wraps(v);
  }

  lemma Wraps(v: int)
    requires v >= 0
    ensures v <= 0xffff_ffff_ffff_ffff ==>
      (0xffff_ffff_ffff_ffff + 1 - v) % (0xffff_ffff_ffff_ffff + 1)
      == if v == 0 then 0 else 0x1_0000_0000_0000_0000 - v
  {
  }

  lemma SignedRun(x: string, s: string, minus: bool)
    requires s != [] && Digits(s) && x == [if minus then '-' else '+'] + s
    ensures SkipSpaces(x, 0) == 0 && DigitRun(x, 1, false) == |x|
    ensures RunValue(x, 1, |x|, false) == DecimalValue(s)
  {
    hide DecimalValue;
    assert forall i :: 1 <= i < |x| ==> x[i] == s[i - 1];
    assert x[1..|x|] == s;
  }

  /** When the first character is a digit, strtoul reads to the end exactly if all
      are. */
  lemma StrtoulEnd(s: string)
    requires s != [] && IsDecimal(s[0])
    ensures Strtoul(s, false).1 == |s| <==> Digits(s)
  {
    hide DecimalValue;
    DigitNotSpace(s[0]);
    assert SkipSpaces(s, 0) == 0;
    var q := DigitRun(s, 0, false);
    assert q > 0;
    assert Strtoul(s, false).1 == q;
  }

  /** PersistentKeepalive: "off", or a number up to 65535. */
  lemma KeepaliveMeans(v: string)
    ensures ParseKeepalive(v)
        == if CaselessSame(v, "off") then Some(0)
           else if v != [] && Digits(v) && 0 <= DecimalValue(v) <= 65535 then Some(DecimalValue(v)) else None
  {
    hide Strtoul, DecimalValue;
    if v != [] && IsDecimal(v[0]) {
      StrtoulEnd(v);
      if Digits(v) {
        StrtoulDigits(v);
      }
    }
  }

  /** AdvancedSecurity: "on", "off", or a number, false where its low 32 bits are
      zero. */
  lemma SwitchMeans(v: string)
    ensures ParseBool(v)
        == if CaselessSame(v, "off") then Some(false) else if CaselessSame(v, "on") then Some(true)
           else if v != [] && Digits(v) then Some(Cut(DecimalValue(v)) % 0x1_0000_0000 != 0) else None
  {
    hide Strtoul, DecimalValue;
    if v != [] && IsDecimal(v[0]) {
      StrtoulEnd(v);
      if Digits(v) {
        StrtoulDigits(v);
      }
    }
  }

  lemma StrtoulHexEnd(s: string)
    requires |s| > 2 && s[0] == '0' && s[1] == 'x'
    ensures HexDigits(s[2..]) ==> HexNumber(s[2..]) >= 0 && Strtoul(s, true) == (Cut(HexNumber(s[2..])), |s|)
    ensures !HexDigits(s[2..]) ==> Strtoul(s, true).1 < |s|
  {
    hide HexNumber;
    var x := s[2..];
    assert forall i :: 2 <= i < |s| ==> s[i] == x[i - 2];
    assert SkipSpaces(s, 0) == 0;
    if HexDigits(x) {
      NumberNonnegative(x, true);
      assert IsHexadecimal(x[0]);
      assert DigitRun(s, 2, true) == |s|;
      assert s[2..|s|] == x;
    } else if IsHexadecimal(s[2]) {
      assert Strtoul(s, true).1 == DigitRun(s, 2, true);
    } else {
      assert DigitRun(s, 0, true) == 1;
      assert Strtoul(s, true).1 == 1;
    }
  }

  /** FwMark: "off", a decimal number, or a hexadecimal one after 0x, of 32 bits. */
  lemma FwmarkMeans(v: string)
    ensures ParseFwmark(v)
        == if CaselessSame(v, "off") then Some(0)
           else if |v| > 2 && v[0] == '0' && v[1] == 'x' then
             (if HexDigits(v[2..]) && 0 <= HexNumber(v[2..]) <= 0xffff_ffff then Some(HexNumber(v[2..])) else None)
           else if v != [] && Digits(v) && 0 <= DecimalValue(v) <= 0xffff_ffff then Some(DecimalValue(v)) else None
  {
    hide Strtoul, DecimalValue, HexNumber;
    if |v| > 2 && v[0] == '0' && v[1] == 'x' {
      StrtoulHexEnd(v);
    } else if v != [] && IsDecimal(v[0]) {
      StrtoulEnd(v);
      if Digits(v) {
        StrtoulDigits(v);
      }
    }
  }

  /** Jc to S4: a number whose low 32 bits are at most 65535; a sign is taken too. */
  lemma NumberMeans(v: string)
    requires v != [] && Digits(v)
    ensures var n := Cut(DecimalValue(v)) % 0x1_0000_0000;
            ParseNumber(v) == if n <= 65535 then Some(n) else None
  {
    hide Strtoul, DecimalValue;
    StrtoulDigits(v);
  }

  /** Any other text without a sign or blanks is refused. */
  lemma NumberRefused(v: string)
    requires v == [] || (!Digits(v) && v[0] != '-' && v[0] != '+' && !IsSpace(v[0]))
    ensures ParseNumber(v) == None
  {
    hide DecimalValue, RunValue;
    if v != [] {
      assert SkipSpaces(v, 0) == 0;
      assert DigitRun(v, 0, false) < |v|;
    }
  }

  lemma NumberSigned(s: string, minus: bool)
    requires s != [] && Digits(s)
    ensures var v := DecimalValue(s);
            var n := (if minus && 0 < v <= 0xffff_ffff_ffff_ffff then 0x1_0000_0000_0000_0000 - v else Cut(v))
                     % 0x1_0000_0000;
            ParseNumber([if minus then '-' else '+'] + s) == if n <= 65535 then Some(n) else None
  {
    hide Strtoul, DecimalValue;
    StrtoulSigned(s, minus);
  }

  /** A key is the text of a key and nothing else, and gives that key. */
  lemma KeyMeans(v: string, k: Key)
    ensures ParseKey(v) == Some(k) <==> v == Base64(k)
    ensures ParseKey(v) == None <==> !exists l: Key :: Base64(l) == v
  {
    hide Base64, Unpack, IsBase64;
    Base64Image(v);
    UnpackOfBase64(k);
    if IsBase64(v) {
      Base64OfUnpack(v);
    }
  }

  // ----- addresses -----

  predicate Lacks(s: string, c: char) {
    forall i :: 0 <= i < |s| ==> s[i] != c
  }

  lemma FindAt(x: string, a: string, c: char, b: string)
    requires Lacks(a, c) && x == a + [c] + b
    ensures Find(x, 0, |x|, c) == |a| && x[..|a|] == a && x[|a| + 1..] == b
  {
    assert forall i :: 0 <= i < |a| ==> x[i] == a[i];
    assert x[|a|] == c;
  }

  lemma FindNone(x: string, c: char)
    requires Lacks(x, c)
    ensures Find(x, 0, |x|, c) == |x| && x[..|x|] == x
  {
  }

  /** An allowed IP: an address, of IPv6 exactly if it has a colon, and a prefix
      length up to 32 or 128 after a slash; without a slash it is the whole length. */
  lemma AllowedIpMeans(t: string, mask: string, names: Names)
    requires Lacks(t, '/')
    ensures var v6 := !Lacks(t, ':');
            var max, address := if v6 then 128 else 32, names.pton(v6, t);
            && ParseAllowedIp(t, names)
               == (if address.None? then None else Some(AllowedIp(v6, address.value, max)))
            && ParseAllowedIp(t + "/" + mask, names)
               == if address.Some? && mask != [] && Digits(mask) && 0 <= DecimalValue(mask) <= max
                  then Some(AllowedIp(v6, address.value, DecimalValue(mask))) else None
  {
    hide Strtoul, DecimalValue;
    FindNone(t, '/');
    var x := t + "/" + mask;
    FindAt(x, t, '/', mask);
    assert forall i :: 0 <= i < |t| ==> x[i] == t[i];
    assert (exists i :: 0 <= i < |t| && x[i] == ':') <==> !Lacks(t, ':');
    assert (exists i :: 0 <= i < |t| && t[i] == ':') <==> !Lacks(t, ':');
    if mask != [] && IsDecimal(mask[0]) {
      StrtoulEnd(mask);
      if Digits(mask) {
        StrtoulDigits(mask);
      }
    }
  }

  /** So a bare address is the address with its full length. */
  lemma BareAddress(t: string, names: Names)
    requires Lacks(t, '/')
    ensures ParseAllowedIp(t, names) == ParseAllowedIp(t + "/" + if Lacks(t, ':') then "32" else "128", names)
  {
    FullLengths();
    hide ParseAllowedIp, DecimalValue;
    AllowedIpMeans(t, if Lacks(t, ':') then "32" else "128", names);
  }

  lemma FullLengths()
    ensures Digits("32") && DecimalValue("32") == 32 && Digits("128") && DecimalValue("128") == 128
  {
    assert "32"[..1] == "3" && "3"[..0] == "" && DecimalValue("") == 0;
    assert "128"[..2] == "12" && "12"[..1] == "1" && "1"[..0] == "";
  }

  /** A list is its entries, one after another. */
  lemma AllowedIpsMean(entry: string, rest: string, names: Names)
    requires Lacks(entry, ',')
    ensures var first := ParseAllowedIp(entry, names);
            var more := ParseAllowedIps(rest, names);
            && ParseAllowedIps(entry, names) == (if first.None? then None else Some([first.value]))
            && ParseAllowedIps(entry + "," + rest, names)
               == if first.None? || more.None? then None else Some([first.value] + more.value)
  {
    hide ParseAllowedIp;
    FindNone(entry, ',');
    FindAt(entry + "," + rest, entry, ',', rest);
  }

  lemma BareList(t: string, names: Names)
    requires Lacks(t, '/') && Lacks(t, ',')
    ensures ParseAllowedIps(t, names) == ParseAllowedIps(t + "/" + if Lacks(t, ':') then "32" else "128", names)
  {
    hide ParseAllowedIp, ParseAllowedIps;
    BareAddress(t, names);
    AllowedIpsMean(t, "", names);
    AllowedIpsMean(t + "/" + if Lacks(t, ':') then "32" else "128", "", names);
  }

  /** An endpoint: a host in brackets or before the last colon, and a service. */
  lemma EndpointMeans(host: string, service: string, names: Names)
    requires service != []
    ensures Lacks(host, ']') ==> ParseEndpoint("[" + host + "]:" + service, names) == names.resolve(host, service)
    ensures Lacks(service, ':') && (host == [] || host[0] != '[') ==>
      ParseEndpoint(host + ":" + service, names) == names.resolve(host, service)
  {
    if Lacks(host, ']') {
      var x := "[" + host + "]:" + service;
      assert x == ("[" + host) + "]" + (":" + service);
      FindAt(x, "[" + host, ']', ":" + service);
      assert x[1..|host| + 1] == host && x[|host| + 3..] == service;
    }
    if Lacks(service, ':') && (host == [] || host[0] != '[') {
      var x := host + ":" + service;
      assert forall i :: |host| < i < |x| ==> x[i] == service[i - |host| - 1];
      assert x[|host|] == ':' && FindLast(x, 0, |x|, ':') == |host|;
      assert x[..|host|] == host && x[|host| + 1..] == service;
      assert host != [] ==> x[0] == host[0];
    }
  }

  /** A bracket that closes with no colon and service after it. */
  predicate Unserved(v: string, p: nat)
    requires p < |v|
  {
    v[0] == '[' && v[p] == ']' && Lacks(v[..p], ']') && (p + 2 >= |v| || v[p + 1] != ':')
  }

  /** What has neither form is refused. */
  lemma EndpointRefused(v: string, names: Names)
    ensures v == [] || (v[0] != '[' && Lacks(v, ':')) || (v != [] && v[|v| - 1] == ':' && v[0] != '[') ==>
      ParseEndpoint(v, names) == None
    ensures v != [] && v[0] == '[' && Lacks(v, ']') ==> ParseEndpoint(v, names) == None
    ensures forall p :: 0 <= p < |v| && Unserved(v, p) ==> ParseEndpoint(v, names) == None
  {
    forall p | 0 <= p < |v| && Unserved(v, p)
      ensures ParseEndpoint(v, names) == None
    {
      assert v == v[..p] + [']'] + v[p + 1..];
      FindAt(v, v[..p], ']', v[p + 1..]);
    }
  }

  // ----- lines -----

  const NUMBER_NAMES: seq<string> := ["Jc", "Jmin", "Jmax", "S1", "S2", "S3", "S4"]
  const TEXT_NAMES: seq<string> := ["H1", "H2", "H3", "H4", "I1", "I2", "I3", "I4", "I5"]

  lemma DeviceKeyTable(i: nat)
    ensures DeviceKey(0) == "ListenPort" && DeviceKey(1) == "FwMark" && DeviceKey(2) == "PrivateKey"
    ensures i < 7 ==> DeviceKey(3 + i) == NUMBER_NAMES[i]
    ensures i < 9 ==> DeviceKey(10 + i) == TEXT_NAMES[i]
  {
  }

  lemma PeerKeyTable()
    ensures PeerKey(0) == "Endpoint" && PeerKey(1) == "PublicKey" && PeerKey(2) == "AllowedIPs"
    ensures PeerKey(3) == "PersistentKeepalive" && PeerKey(4) == "PresharedKey" && PeerKey(5) == "AdvancedSecurity"
  {
  }

  lemma CaselessMatch(own: string, key: string, v: string)
    requires CaselessSame(own, key) && v != []
    ensures GetValue(own + "=" + v, key + "=") == Some(v)
  {
    var line, k := own + "=" + v, key + "=";
    var x := line[..|k|];
    assert forall i :: 0 <= i < |own| ==> x[i] == own[i];
    assert forall i :: 0 <= i < |key| ==> k[i] == key[i];
    assert x[|key|] == '=' == k[|key|];
    assert line[|k|..] == v;
  }

  lemma CaselessShared(own: string, a: string, b: string)
    requires CaselessSame(own, a) && CaselessSame(own, b)
    ensures CaselessSame(a, b)
  {
  }

  lemma CaselessNoEquals(own: string, key: string)
    requires CaselessSame(own, key) && NoEquals(key)
    ensures NoEquals(own)
  {
    forall i | 0 <= i < |own|
      ensures own[i] != '='
    {
      assert Upper(key[i]) == Upper(own[i]) && key[i] != '=';
    }
  }

  lemma {:induction false} FindDevice(own: string, k: nat, v: string, i: nat)
    requires i <= k < 19 && v != [] && CaselessSame(own, DeviceKey(k))
    ensures FindDeviceKey(own + "=" + v, i) == k
    decreases k - i
  {
    hide DeviceKey, GetValue, CaselessSame;
    DeviceKeyPlain(k);
    CaselessNoEquals(own, DeviceKey(k));
    if i == k {
      CaselessMatch(own, DeviceKey(k), v);
    } else {
      DeviceKeyPlain(i);
      DeviceKeysDistinct(i, k);
      if CaselessSame(own, DeviceKey(i)) {
        CaselessShared(own, DeviceKey(k), DeviceKey(i));
      }
      MatchOther(own, DeviceKey(i), v);
      FindDevice(own, k, v, i + 1);
    }
  }

  lemma {:induction false} FindPeer(own: string, k: nat, v: string, i: nat)
    requires i <= k < 6 && v != [] && CaselessSame(own, PeerKey(k))
    ensures FindPeerKey(own + "=" + v, i) == k
    decreases k - i
  {
    hide PeerKey, GetValue, CaselessSame;
    PeerKeyPlain(k);
    CaselessNoEquals(own, PeerKey(k));
    if i == k {
      CaselessMatch(own, PeerKey(k), v);
    } else {
      PeerKeyPlain(i);
      PeerKeysDistinct(i, k);
      if CaselessSame(own, PeerKey(i)) {
        CaselessShared(own, PeerKey(k), PeerKey(i));
      }
      MatchOther(own, PeerKey(i), v);
      FindPeer(own, k, v, i + 1);
    }
  }

  lemma DeviceStores(d: Device, own: string, k: nat, v: string, names: Names)
    requires Formed(d) && k < 19 && v != [] && CaselessSame(own, DeviceKey(k))
    ensures DeviceLine(d, own + "=" + v, names) == StoreInDevice(d, k, v, names)
  {
    hide DeviceKey, GetValue, CaselessSame, StoreInDevice, FindDeviceKey;
    FindDevice(own, k, v, 0);
    CaselessMatch(own, DeviceKey(k), v);
  }

  lemma PeerStores(p: Peer, own: string, k: nat, v: string, names: Names)
    requires k < 6 && v != [] && CaselessSame(own, PeerKey(k))
    ensures PeerLine(p, own + "=" + v, names) == StoreInPeer(p, k, v, names)
  {
    hide PeerKey, GetValue, CaselessSame, StoreInPeer, FindPeerKey;
    FindPeer(own, k, v, 0);
    CaselessMatch(own, PeerKey(k), v);
  }

  /** The lines of the interface section, by the names of their keys in any case. */
  lemma DeviceLineMeans(d: Device, own: string, v: string, names: Names)
    requires Formed(d) && v != []
    ensures CaselessSame(own, "ListenPort") ==>
      DeviceLine(d, own + "=" + v, names)
      == if names.port(v).None? then None else Some(d.(listenPort := names.port(v)))
    ensures CaselessSame(own, "FwMark") ==>
      DeviceLine(d, own + "=" + v, names)
      == if ParseFwmark(v).None? then None else Some(d.(fwmark := ParseFwmark(v)))
    ensures CaselessSame(own, "PrivateKey") ==>
      DeviceLine(d, own + "=" + v, names)
      == if ParseKey(v).None? then None else Some(d.(privateKey := ParseKey(v)))
  {
    hide CaselessSame, DeviceKey, DeviceLine, ParseFwmark, ParseKey;
    DeviceKeyTable(0);
    if CaselessSame(own, "ListenPort") {
      DeviceStores(d, own, 0, v, names);
    }
    if CaselessSame(own, "FwMark") {
      DeviceStores(d, own, 1, v, names);
    }
    if CaselessSame(own, "PrivateKey") {
      DeviceStores(d, own, 2, v, names);
    }
  }

  lemma NumberLineMeans(d: Device, own: string, i: nat, v: string, names: Names)
    requires Formed(d) && v != [] && i < 7 && CaselessSame(own, NUMBER_NAMES[i])
    ensures DeviceLine(d, own + "=" + v, names)
        == if ParseNumber(v).None? then None else Some(d.(numbers := d.numbers[i := ParseNumber(v)]))
  {
    hide CaselessSame, DeviceKey, DeviceLine, ParseNumber;
    DeviceKeyTable(i);
    DeviceStores(d, own, 3 + i, v, names);
  }

  lemma TextLineMeans(d: Device, own: string, i: nat, v: string, names: Names)
    requires Formed(d) && v != [] && i < 9 && CaselessSame(own, TEXT_NAMES[i])
    ensures DeviceLine(d, own + "=" + v, names)
        == if |v| >= 5120 then None else Some(d.(texts := d.texts[i := Some(v)]))
  {
    hide CaselessSame, DeviceKey, DeviceLine;
    DeviceKeyTable(i);
    DeviceStores(d, own, 10 + i, v, names);
  }

  /** And the lines of a peer section. */
  lemma PeerLineMeans(p: Peer, own: string, v: string, names: Names)
    requires v != []
    ensures CaselessSame(own, "PublicKey") ==>
      PeerLine(p, own + "=" + v, names) == if ParseKey(v).None? then None else Some(p.(publicKey := ParseKey(v)))
    ensures CaselessSame(own, "PresharedKey") ==>
      PeerLine(p, own + "=" + v, names) == if ParseKey(v).None? then None else Some(p.(presharedKey := ParseKey(v)))
    ensures CaselessSame(own, "Endpoint") ==>
      PeerLine(p, own + "=" + v, names)
      == if ParseEndpoint(v, names).None? then None else Some(p.(endpoint := ParseEndpoint(v, names)))
    ensures CaselessSame(own, "PersistentKeepalive") ==>
      PeerLine(p, own + "=" + v, names)
      == if ParseKeepalive(v).None? then None else Some(p.(keepalive := ParseKeepalive(v)))
    ensures CaselessSame(own, "AdvancedSecurity") ==>
      PeerLine(p, own + "=" + v, names) == if ParseBool(v).None? then None else Some(p.(awg := ParseBool(v)))
    ensures CaselessSame(own, "AllowedIPs") ==>
      PeerLine(p, own + "=" + v, names)
      == if ParseAllowedIps(v, names).None? then None
         else Some(p.(replaceAllowedIps := true, allowedIps := p.allowedIps + ParseAllowedIps(v, names).value))
  {
    hide CaselessSame, PeerKey, PeerLine, ParseKey, ParseEndpoint, ParseKeepalive, ParseBool, ParseAllowedIps;
    PeerKeyTable();
    forall k: nat | k < 6 && CaselessSame(own, PeerKey(k))
      ensures PeerLine(p, own + "=" + v, names) == StoreInPeer(p, k, v, names)
    {
      PeerStores(p, own, k, v, names);
    }
  }

  /** The names of the interface section, and of a peer section. */
  predicate DeviceName(own: string) {
    || CaselessSame(own, "ListenPort") || CaselessSame(own, "FwMark") || CaselessSame(own, "PrivateKey")
    || (exists i :: 0 <= i < 7 && CaselessSame(own, NUMBER_NAMES[i]))
    || (exists i :: 0 <= i < 9 && CaselessSame(own, TEXT_NAMES[i]))
  }

  predicate PeerName(own: string) {
    || CaselessSame(own, "PublicKey") || CaselessSame(own, "PresharedKey") || CaselessSame(own, "Endpoint")
    || CaselessSame(own, "PersistentKeepalive") || CaselessSame(own, "AdvancedSecurity")
    || CaselessSame(own, "AllowedIPs")
  }

  lemma UnknownName(own: string, k: nat)
    ensures k < 19 && !DeviceName(own) ==> !CaselessSame(own, DeviceKey(k))
    ensures k < 6 && !PeerName(own) ==> !CaselessSame(own, PeerKey(k))
  {
    PeerKeyTable();
    DeviceKeyTable(if k < 3 then 0 else if k < 10 then k - 3 else if k < 19 then k - 10 else 0);
    hide CaselessSame;
  }

  lemma NoValue(own: string, key: string)
    requires NoEquals(own) && NoEquals(key)
    ensures GetValue(own + "=", key + "=").None?
  {
    if GetValue(own + "=", key + "=").Some? {
      assert own + "=" == own + "=" + "";
      MatchMeansSame(own, key, "");
    }
  }

  lemma {:induction false} NoDeviceKey(own: string, v: string, i: nat)
    requires i <= 19 && NoEquals(own) && (v == [] || !DeviceName(own))
    ensures FindDeviceKey(own + "=" + v, i) == 19
    decreases 19 - i
  {
    hide DeviceKey, GetValue, CaselessSame, DeviceName;
    if i < 19 {
      DeviceKeyPlain(i);
      UnknownName(own, i);
      if v == [] {
        assert own + "=" + v == own + "=";
        NoValue(own, DeviceKey(i));
      } else {
        MatchOther(own, DeviceKey(i), v);
      }
      NoDeviceKey(own, v, i + 1);
    }
  }

  lemma {:induction false} NoPeerKey(own: string, v: string, i: nat)
    requires i <= 6 && NoEquals(own) && (v == [] || !PeerName(own))
    ensures FindPeerKey(own + "=" + v, i) == 6
    decreases 6 - i
  {
    hide PeerKey, GetValue, CaselessSame, PeerName;
    if i < 6 {
      PeerKeyPlain(i);
      UnknownName(own, i);
      if v == [] {
        assert own + "=" + v == own + "=";
        NoValue(own, PeerKey(i));
      } else {
        MatchOther(own, PeerKey(i), v);
      }
      NoPeerKey(own, v, i + 1);
    }
  }

  /** A line with another name, or with nothing after the equals sign, is refused: so
      an empty AllowedIPs is no way to have none. */
  lemma LineRefused(d: Device, p: Peer, own: string, v: string, names: Names)
    requires Formed(d) && NoEquals(own)
    ensures v == [] || !DeviceName(own) ==> DeviceLine(d, own + "=" + v, names) == None
    ensures v == [] || !PeerName(own) ==> PeerLine(p, own + "=" + v, names) == None
  {
    hide CaselessSame, DeviceName, PeerName, FindDeviceKey, FindPeerKey, GetValue;
    if v == [] || !DeviceName(own) {
      NoDeviceKey(own, v, 0);
    }
    if v == [] || !PeerName(own) {
      NoPeerKey(own, v, 0);
    }
  }

  /** Given an empty list directly, as the command line can, parse_allowedips adds
      nothing. */
  lemma EmptyListAddsNothing(p: Peer, names: Names)
    ensures StoreInPeer(p, 2, [], names) == Some(p.(replaceAllowedIps := true))
  {
    assert p.allowedIps + [] == p.allowedIps;
  }

  /** Headers and the sections they open; a line before any header is refused. */
  lemma SectionMeans(c: Context, line: string, names: Names)
    requires Valid(c)
    ensures CaselessSame(line, "[Interface]") ==> ProcessLine(c, line, names) == Some(Context(c.device, InDevice))
    ensures CaselessSame(line, "[Peer]") ==>
      ProcessLine(c, line, names)
      == Some(Context(c.device.(peers := c.device.peers + [Peer(true, None, None, None, [], None, None)]), InPeer))
    ensures !CaselessSame(line, "[Interface]") && !CaselessSame(line, "[Peer]") ==>
      match c.section
      case Nowhere => ProcessLine(c, line, names) == None
      case InDevice =>
        var d := DeviceLine(c.device, line, names);
        ProcessLine(c, line, names) == if d.None? then None else Some(Context(d.value, InDevice))
      case InPeer =>
        var n := |c.device.peers| - 1;
        var p := PeerLine(c.device.peers[n], line, names);
        ProcessLine(c, line, names)
        == if p.None? then None else Some(Context(c.device.(peers := c.device.peers[n := p.value]), InPeer))
  {
    hide DeviceLine, PeerLine;
    assert CaselessSame(line, "[Interface]") ==> |line| == 11;
    assert CaselessSame(line, "[Peer]") ==> |line| == 6;
    hide CaselessSame;
  }

  /** A file that replaces starts with REPLACE_PEERS, no mark and the zero key; one
      that is added starts with nothing. */
  lemma StartMeans(append: bool)
    ensures var c := Start(append);
            && c.section == Nowhere && c.device.peers == [] && c.device.listenPort == None
            && c.device.replacePeers == !append
            && c.device.fwmark == (if append then None else Some(0))
            && c.device.privateKey == (if append then None else Some(seq(32, _ => 0)))
            && (forall i :: 0 <= i < 7 ==> c.device.numbers[i] == None)
            && (forall i :: 0 <= i < 9 ==> c.device.texts[i] == None)
  {
    assert ZeroKey() == seq(32, _ => 0);
  }

  lemma FinishMeans(c: Context)
    ensures Finish(c) == None <==> exists i :: 0 <= i < |c.device.peers| && c.device.peers[i].publicKey == None
    ensures Finish(c) != None ==> Finish(c) == Some(c.device)
  {
  }

  // ----- blanks and comments -----

  lemma {:induction false} BlanksGo(s: string, t: string, c: char)
    ensures RemoveSpaces(s + [c] + t)
        == RemoveSpaces(s) + (if 9 <= c as int <= 13 || c as int == 32 then [] else [c]) + RemoveSpaces(t)
  {
    hide RemoveSpaces;
    RemoveSpacesJoin(s + [c], t);
    RemoveSpacesJoin(s, [c]);
    OneCharacter(c);
  }

  lemma OneCharacter(c: char)
    ensures RemoveSpaces([c]) == if 9 <= c as int <= 13 || c as int == 32 then [] else [c]
  {
    assert [c][..0] == [];
  }

  /** A comment does not count. */
  lemma CommentIgnored(x: string, comment: string)
    requires Lacks(x, '#')
    ensures Clean(x + "#" + comment) == Clean(x)
  {
    hide RemoveSpaces, CleanSpecial, DeviceKey;
    var input := x + "#" + comment;
    FindAt(input, x, '#', comment);
    FindNone(x, '#');
    if |x| >= 2 {
      assert input[..2] == x[..2];
    } else {
      assert input[|x|] == '#';
      HashNotSpecial(input, |x|);
    }
  }

  lemma HashNotSpecial(input: string, n: nat)
    requires n < 2 && n < |input| && input[n] == '#'
    ensures !IsSpecial(input)
  {
    forall i: nat | 14 <= i < 19 && |input| >= 2
      ensures !CaselessSame(input[..2], DeviceKey(i))
    {
      assert DeviceKey(i)[n] != '#' && input[..2][n] == '#';
    }
  }

  lemma SameKey(key: string)
    ensures CaselessSame(key, key)
  {
  }

  /** The peer section with more allowed IPs in its last peer, or a refusal. */
  function Extended(c: Context, ips: Option<seq<AllowedIp>>): Option<Context>
    requires |c.device.peers| > 0
  {
    var n := |c.device.peers| - 1;
    var p := c.device.peers[n];
    if ips.None? then None
    else
      var q := p.(replaceAllowedIps := true, allowedIps := p.allowedIps + ips.value);
      Some(Context(c.device.(peers := c.device.peers[n := q]), InPeer))
  }

  lemma AllowedLine(c: Context, v: string, names: Names)
    requires Valid(c) && c.section == InPeer && v != []
    ensures ProcessLine(c, "AllowedIPs=" + v, names) == Extended(c, ParseAllowedIps(v, names))
  {
    hide CaselessSame, PeerLine, ParseAllowedIps, ProcessLine;
    SameKey("AllowedIPs");
    NotHeader("AllowedIPs", "=" + v);
    assert "AllowedIPs" + ("=" + v) == "AllowedIPs=" + v && "AllowedIPs" + "=" + v == "AllowedIPs=" + v;
    SectionMeans(c, "AllowedIPs=" + v, names);
    PeerLineMeans(c.device.peers[|c.device.peers| - 1], "AllowedIPs", v, names);
  }

  lemma AllowedRead(c: Context, v: string, names: Names)
    requires Valid(c) && c.section == InPeer && v != [] && Plain(v)
    ensures ReadLine(c, "AllowedIPs = " + v + "\n", names) == Extended(c, ParseAllowedIps(v, names))
  {
    hide Clean, ParseAllowedIps, IsSpecial, Plain, ProcessLine, Extended, CaselessSame;
    PeerKeyTable();
    PeerKeyPlain(2);
    CleanAssign("AllowedIPs", v);
    assert Assign("AllowedIPs", v) == "AllowedIPs = " + v;
    assert "AllowedIPs" + "=" + v == "AllowedIPs=" + v;
    AllowedLine(c, v, names);
  }

  /** The line that sets one allowed IP: with or without its full length it is the
      same line. */
  lemma BareLine(c: Context, t: string, names: Names)
    requires Valid(c) && c.section == InPeer && t != [] && Plain(t) && Lacks(t, '/') && Lacks(t, ',')
    ensures var full := t + "/" + if Lacks(t, ':') then "32" else "128";
            ReadLine(c, "AllowedIPs = " + t + "\n", names) == ReadLine(c, "AllowedIPs = " + full + "\n", names)
  {
    var full := t + "/" + if Lacks(t, ':') then "32" else "128";
    FullPlain(t);
    hide ReadLine, Extended, Plain, ParseAllowedIps;
    BareList(t, names);
    AllowedRead(c, t, names);
    AllowedRead(c, full, names);
  }

  lemma FullPlain(t: string)
    requires Plain(t)
    ensures Plain(t + "/" + if Lacks(t, ':') then "32" else "128")
  {
  }

  /** Of the interface, showconf prints the header first, the port in decimal and the
      mark in hexadecimal. */
  lemma ShownInterface(d: Device, names: Names)
    requires Formed(d)
    ensures |ShowConf(d, names)| > 0 && ShowConf(d, names)[0] == "[Interface]"
    ensures Nonzero(d.listenPort) ==> "ListenPort = " + Decimal(d.listenPort.value) in ShowConf(d, names)
    ensures Nonzero(d.fwmark) ==> "FwMark = 0x" + Hexadecimal(d.fwmark.value) in ShowConf(d, names)
  {
    hide NumberLines, TextLines, PeerLines, Base64, Decimal, Hexadecimal;
    var lines := ShowConf(d, names);
    if Nonzero(d.listenPort) {
      assert lines[1] == Assign("ListenPort", Decimal(d.listenPort.value));
      assert Assign("ListenPort", Decimal(d.listenPort.value)) == "ListenPort = " + Decimal(d.listenPort.value);
    }
    if Nonzero(d.fwmark) {
      var i := if Nonzero(d.listenPort) then 2 else 1;
      assert lines[i] == Assign("FwMark", "0x" + Hexadecimal(d.fwmark.value));
      assert Assign("FwMark", "0x" + Hexadecimal(d.fwmark.value)) == "FwMark = 0x" + Hexadecimal(d.fwmark.value);
    }
  }
}
