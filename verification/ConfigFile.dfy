/** The configuration file: config.c reads it line by line into a device, and
    showconf.c prints a device as such a file. */
module ConfigFile {
  import opened Options
  import opened MachineInts
  import opened KeyText
  import opened AddressGrammar
  import opened TextCuts
  import opened ConfigText

  datatype AllowedIp = AllowedIp(v6: bool, address: seq<uint8>, cidr: nat)

  datatype SocketAddress = SocketAddress(v6: bool, bytes: seq<uint8>)

  /** struct wgpeer; an option is a field with its flag. */
  datatype Peer = Peer(
    replaceAllowedIps: bool,
    publicKey: Option<Key>,
    presharedKey: Option<Key>,
    awg: Option<bool>,
    allowedIps: seq<AllowedIp>,
    endpoint: Option<SocketAddress>,
    keepalive: Option<nat>)

  /** struct wgdevice; numbers holds Jc to S4 and texts H1 to I5. */
  datatype Device = Device(
    replacePeers: bool,
    listenPort: Option<nat>,
    fwmark: Option<nat>,
    privateKey: Option<Key>,
    numbers: seq<Option<nat>>,
    texts: seq<Option<string>>,
    peers: seq<Peer>)

  const NUMBERS: nat := 7
  const TEXTS: nat := 9

  predicate Formed(d: Device) {
    |d.numbers| == NUMBERS && |d.texts| == TEXTS
  }

  /** The address functions of the C library: inet_ntop, inet_pton, the two halves
      of getnameinfo, and getaddrinfo for an endpoint and for a port. */
  datatype Names = Names(
    ntop: (bool, seq<uint8>) -> string,
    pton: (bool, string) -> Option<seq<uint8>>,
    host: SocketAddress -> string,
    service: SocketAddress -> string,
    resolve: (string, string) -> Option<SocketAddress>,
    port: string -> Option<nat>)

  datatype Section = Nowhere | InDevice | InPeer

  /** struct config_ctx. */
  datatype Context = Context(device: Device, section: Section)

  // ----- keys -----

  /** The keys of the interface section, in the order they are tried. */
  function DeviceKey(i: nat): (k: string)
    requires i < 19
    ensures |k| >= 2
  {
    if i == 0 then "ListenPort" else if i == 1 then "FwMark" else if i == 2 then "PrivateKey"
    else if i == 3 then "Jc" else if i == 4 then "Jmin" else if i == 5 then "Jmax"
    else if i == 6 then "S1" else if i == 7 then "S2" else if i == 8 then "S3" else if i == 9 then "S4"
    else if i == 10 then "H1" else if i == 11 then "H2" else if i == 12 then "H3" else if i == 13 then "H4"
    else if i == 14 then "I1" else if i == 15 then "I2" else if i == 16 then "I3" else if i == 17 then "I4" else "I5"
  }

  /** And those of a peer section. */
  function PeerKey(i: nat): (k: string)
    requires i < 6
    ensures |k| >= 2
  {
    if i == 0 then "Endpoint" else if i == 1 then "PublicKey" else if i == 2 then "AllowedIPs"
    else if i == 3 then "PersistentKeepalive" else if i == 4 then "PresharedKey" else "AdvancedSecurity"
  }

  /** get_value: the key must be followed by something. */
  function GetValue(line: string, key: string): Option<string> {
    if |line| > |key| && CaselessSame(line[..|key|], key) then Some(line[|key|..]) else None
  }

  function FindDeviceKey(line: string, i: nat): (k: nat)
    requires i <= 19
    ensures i <= k <= 19
    decreases 19 - i
  {
    if i < 19 && GetValue(line, DeviceKey(i) + "=").None? then FindDeviceKey(line, i + 1) else i
  }

  function FindPeerKey(line: string, i: nat): (k: nat)
    requires i <= 6
    ensures i <= k <= 6
    decreases 6 - i
  {
    if i < 6 && GetValue(line, PeerKey(i) + "=").None? then FindPeerKey(line, i + 1) else i
  }

  // ----- values -----

  function ParseNumber(value: string): (r: Option<nat>)
    ensures r.Some? ==> r.value <= 0xffff
  {
    var (v, end) := Strtoul(value, false);
    if value == [] || end < |value| || v % 0x1_0000_0000 > 0xffff then None else Some(v % 0x1_0000_0000)
  }

  const MAX_AWG_STRING_LEN: nat := 5 * 1024

  function ParseText(value: string): (r: Option<string>) {
    if |value| >= MAX_AWG_STRING_LEN then None else Some(value)
  }

  function ParseFwmark(value: string): (r: Option<nat>) {
    if CaselessSame(value, "off") then Some(0)
    else if value == [] || !IsDecimal(value[0]) then None
    else
      var (v, end) := Strtoul(value, |value| > 2 && value[0] == '0' && value[1] == 'x');
      if end < |value| || v > 0xffff_ffff then None else Some(v)
  }

  function ParseKey(value: string): (r: Option<Key>) {
    if IsBase64(value) then Some(Unpack(value)) else None
  }

  function ParseKeepalive(value: string): (r: Option<nat>) {
    if CaselessSame(value, "off") then Some(0)
    else if value == [] || !IsDecimal(value[0]) then None
    else
      var (v, end) := Strtoul(value, false);
      if end < |value| || v > 65535 then None else Some(v)
  }

  function ParseBool(value: string): (r: Option<bool>) {
    if CaselessSame(value, "off") then Some(false)
    else if CaselessSame(value, "on") then Some(true)
    else if value == [] || !IsDecimal(value[0]) then None
    else
      var (v, end) := Strtoul(value, false);
      if end < |value| then None else Some(v % 0x1_0000_0000 != 0)
  }

  function ParseEndpoint(value: string, names: Names): (r: Option<SocketAddress>) {
    if value == [] then None
    else if value[0] == '[' then
      var close := Find(value, 0, |value|, ']');
      if close + 2 >= |value| || value[close + 1] != ':' then None
      else names.resolve(value[1..close], value[close + 2..])
    else
      var colon := FindLast(value, 0, |value|, ':');
      if colon + 1 >= |value| || value[colon] != ':' then None
      else names.resolve(value[..colon], value[colon + 1..])
  }

  /** One entry of a list of allowed addresses. */
  function ParseAllowedIp(entry: string, names: Names): (r: Option<AllowedIp>) {
    var slash := Find(entry, 0, |entry|, '/');
    var v6 := exists i :: 0 <= i < slash && entry[i] == ':';
    var address := names.pton(v6, entry[..slash]);
    var max := if v6 then 128 else 32;
    if address.None? then None
    else if slash == |entry| then Some(AllowedIp(v6, address.value, max))
    else
      var mask := entry[slash + 1..];
      if mask == [] || !IsDecimal(mask[0]) then None
      else
        var (cidr, end) := Strtoul(mask, false);
        if end < |mask| || cidr > max then None else Some(AllowedIp(v6, address.value, cidr))
  }

  /** Entries with commas between them. */
  function ParseAllowedIps(value: string, names: Names): (r: Option<seq<AllowedIp>>)
    decreases |value|
  {
    var comma := Find(value, 0, |value|, ',');
    var first := ParseAllowedIp(value[..comma], names);
    if first.None? then None
    else if comma == |value| then Some([first.value])
    else
      var rest := ParseAllowedIps(value[comma + 1..], names);
      if rest.None? then None else Some([first.value] + rest.value)
  }

  // ----- lines -----

  function EmptyPeer(): Peer {
    Peer(true, None, None, None, [], None, None)
  }

  /** What a value does to the field of its key. */
  function StoreInDevice(d: Device, k: nat, value: string, names: Names): (r: Option<Device>)
    requires Formed(d) && k < 19
    ensures r.Some? ==> Formed(r.value) && r.value.peers == d.peers
  {
    if k == 0 then
      var port := if value == [] then None else names.port(value);
      if port.None? then None else Some(d.(listenPort := port))
    else if k == 1 then
      var mark := ParseFwmark(value);
      if mark.None? then None else Some(d.(fwmark := mark))
    else if k == 2 then
      var key := ParseKey(value);
      if key.None? then None else Some(d.(privateKey := key))
    else if k < 10 then
      var n := ParseNumber(value);
      if n.None? then None else Some(d.(numbers := d.numbers[k - 3 := n]))
    else
      var t := ParseText(value);
      if t.None? then None else Some(d.(texts := d.texts[k - 10 := t]))
  }

  function StoreInPeer(p: Peer, k: nat, value: string, names: Names): (r: Option<Peer>)
    requires k < 6
  {
    if k == 0 then
      var e := ParseEndpoint(value, names);
      if e.None? then None else Some(p.(endpoint := e))
    else if k == 1 then
      var key := ParseKey(value);
      if key.None? then None else Some(p.(publicKey := key))
    else if k == 2 then
      var ips := if value == [] then Some([]) else ParseAllowedIps(value, names);
      if ips.None? then None else Some(p.(replaceAllowedIps := true, allowedIps := p.allowedIps + ips.value))
    else if k == 3 then
      var n := ParseKeepalive(value);
      if n.None? then None else Some(p.(keepalive := n))
    else if k == 4 then
      var key := ParseKey(value);
      if key.None? then None else Some(p.(presharedKey := key))
    else
      var b := ParseBool(value);
      if b.None? then None else Some(p.(awg := b))
  }

  /** A line of the interface section. */
  function DeviceLine(d: Device, line: string, names: Names): (r: Option<Device>)
    requires Formed(d)
    ensures r.Some? ==> Formed(r.value) && r.value.peers == d.peers
  {
    var k := FindDeviceKey(line, 0);
    var value := if k < 19 then GetValue(line, DeviceKey(k) + "=") else None;
    if value.None? then None else StoreInDevice(d, k, value.value, names)
  }

  /** A line of a peer section. */
  function PeerLine(p: Peer, line: string, names: Names): (r: Option<Peer>) {
    var k := FindPeerKey(line, 0);
    var value := if k < 6 then GetValue(line, PeerKey(k) + "=") else None;
    if value.None? then None else StoreInPeer(p, k, value.value, names)
  }

  predicate Valid(c: Context) {
    Formed(c.device) && (c.section == InPeer ==> |c.device.peers| > 0)
  }

  /** process_line. */
  function ProcessLine(c: Context, line: string, names: Names): (r: Option<Context>)
    requires Valid(c)
    ensures r.Some? ==> Valid(r.value)
  {
    if CaselessSame(line, "[Interface]") then Some(c.(section := InDevice))
    else if CaselessSame(line, "[Peer]") then
      Some(Context(c.device.(peers := c.device.peers + [EmptyPeer()]), InPeer))
    else if c.section == InDevice then
      var d := DeviceLine(c.device, line, names);
      if d.None? then None else Some(c.(device := d.value))
    else if c.section == InPeer then
      var p := PeerLine(LastPeer(c), line, names);
      if p.None? then None else Some(WithLastPeer(c, p.value))
    else None
  }

  function LastPeer(c: Context): Peer
    requires |c.device.peers| > 0
  {
    c.device.peers[|c.device.peers| - 1]
  }

  function WithLastPeer(c: Context, p: Peer): (r: Context)
    requires |c.device.peers| > 0
  {
    c.(device := c.device.(peers := c.device.peers[|c.device.peers| - 1 := p]))
  }

  predicate IsSpecial(input: string) {
    |input| >= 2 && exists i: nat :: 14 <= i < 19 && CaselessSame(input[..2], DeviceKey(i))
  }

  function TrimSpaces(s: string): (e: nat)
    ensures e <= |s| && (forall i :: e <= i < |s| ==> IsSpace(s[i])) && (e > 0 ==> !IsSpace(s[e - 1]))
  {
    if s != [] && IsSpace(s[|s| - 1]) then TrimSpaces(s[..|s| - 1]) else |s|
  }

  /** clean_special_handshake_line: blanks inside the value stay. */
  function CleanSpecial(s: string): string {
    var x := s[..TrimSpaces(s)];
    var equals := Find(x, 0, |x|, '=');
    if equals == |x| then RemoveSpaces(x)
    else RemoveSpaces(x[..equals]) + "=" + x[SkipSpaces(x, equals + 1)..]
  }

  /** A line without its comment and blanks. */
  function Clean(input: string): string {
    var text := input[..Find(input, 0, |input|, '#')];
    if IsSpecial(input) then CleanSpecial(text) else RemoveSpaces(text)
  }

  /** config_read_line. */
  function ReadLine(c: Context, input: string, names: Names): (r: Option<Context>)
    requires Valid(c)
    ensures r.Some? ==> Valid(r.value)
  {
    var line := Clean(input);
    if line == [] then Some(c) else ProcessLine(c, line, names)
  }

  /** A file, line by line; each line comes with its newline. */
  function ReadLines(c: Context, lines: seq<string>, names: Names): (r: Option<Context>)
    requires Valid(c)
    ensures r.Some? ==> Valid(r.value)
    decreases |lines|
  {
    if lines == [] then Some(c)
    else
      var next := ReadLine(c, lines[0] + "\n", names);
      if next.None? then None else ReadLines(next.value, lines[1..], names)
  }

  function ZeroKey(): Key {
    seq(32, _ => 0)
  }

  /** config_read_init. */
  function Start(append: bool): (c: Context)
    ensures Valid(c)
  {
    var none := seq(NUMBERS, _ => None);
    var blank := seq(TEXTS, _ => None);
    var mark := if append then None else Some(0);
    var key := if append then None else Some(ZeroKey());
    Context(Device(!append, None, mark, key, none, blank, []), Nowhere)
  }

  /** config_read_finish. */
  function Finish(c: Context): Option<Device> {
    if exists i :: 0 <= i < |c.device.peers| && c.device.peers[i].publicKey.None? then None else Some(c.device)
  }

  // ----- printing -----

  function Assign(key: string, value: string): string {
    key + " = " + value
  }

  function NumberLines(d: Device, i: nat): seq<string>
    requires Formed(d) && i <= NUMBERS
    decreases NUMBERS - i
  {
    if i == NUMBERS then []
    else (if d.numbers[i].Some? then [Assign(DeviceKey(3 + i), Decimal(d.numbers[i].value))] else [])
         + NumberLines(d, i + 1)
  }

  function TextLines(d: Device, i: nat): seq<string>
    requires Formed(d) && i <= TEXTS
    decreases TEXTS - i
  {
    if i == TEXTS then []
    else (if d.texts[i].Some? then [Assign(DeviceKey(10 + i), d.texts[i].value)] else []) + TextLines(d, i + 1)
  }

  function AllowedText(a: AllowedIp, names: Names): string {
    names.ntop(a.v6, a.address) + "/" + Decimal(a.cidr)
  }

  function AllowedList(ips: seq<AllowedIp>, names: Names): string {
    if ips == [] then []
    else if |ips| == 1 then AllowedText(ips[0], names)
    else AllowedText(ips[0], names) + ", " + AllowedList(ips[1..], names)
  }

  function EndpointText(e: SocketAddress, names: Names): string {
    var host := names.host(e);
    if e.v6 && exists i :: 0 <= i < |host| && host[i] == ':' then "[" + host + "]:" + names.service(e)
    else host + ":" + names.service(e)
  }

  function KeyOrZero(k: Option<Key>): Key {
    if k.Some? then k.value else ZeroKey()
  }

  function Optional(b: bool, line: string): seq<string> {
    if b then [line] else []
  }

  function Nonzero(n: Option<nat>): bool {
    n.Some? && n.value != 0
  }

  function NumberOr0(n: Option<nat>): nat {
    if n.Some? then n.value else 0
  }

  function PeerBody(p: Peer, names: Names): seq<string> {
    [Assign("PublicKey", Base64(KeyOrZero(p.publicKey)))]
    + Optional(p.presharedKey.Some?, Assign("PresharedKey", Base64(KeyOrZero(p.presharedKey))))
    + Optional(p.awg.Some?, Assign("AdvancedSecurity", if p.awg.Some? && p.awg.value then "on" else "off"))
    + Optional(p.allowedIps != [], Assign("AllowedIPs", AllowedList(p.allowedIps, names)))
    + (if p.endpoint.Some? then [Assign("Endpoint", EndpointText(p.endpoint.value, names))] else [])
    + Optional(Nonzero(p.keepalive), Assign("PersistentKeepalive", Decimal(NumberOr0(p.keepalive))))
  }

  function PeerLines(peers: seq<Peer>, names: Names): seq<string> {
    if peers == [] then []
    else ["[Peer]"] + PeerBody(peers[0], names) + (if |peers| > 1 then [""] else []) + PeerLines(peers[1..], names)
  }

  /** showconf_main, the lines it prints for a device. */
  function ShowConf(d: Device, names: Names): seq<string>
    requires Formed(d)
  {
    ["[Interface]"]
    + Optional(Nonzero(d.listenPort), Assign("ListenPort", Decimal(NumberOr0(d.listenPort))))
    + Optional(Nonzero(d.fwmark), Assign("FwMark", "0x" + Hexadecimal(NumberOr0(d.fwmark))))
    + Optional(d.privateKey.Some?, Assign("PrivateKey", Base64(KeyOrZero(d.privateKey))))
    + NumberLines(d, 0)
    + TextLines(d, 0)
    + [""]
    + PeerLines(d.peers, names)
  }
}
