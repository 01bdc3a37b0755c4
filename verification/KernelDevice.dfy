/** The receiver of WG_CMD_SET_DEVICE as uapi/linux/wireguard.h documents it:
    attributes to an update, and an update to the device state. */
module KernelDevice {
  import opened Options
  import opened MachineInts
  import opened Netlink

  const AF_INET: nat := 2
  const AF_INET6: nat := 10

  datatype Ip = Ip(family: nat, addr: Octets, cidr: uint8)

  predicate ValidIp(ip: Ip) {
    && ip.family < 0x1_0000
    && |ip.addr| == if ip.family == AF_INET then 4 else if ip.family == AF_INET6 then 16 else 0
  }

  /** One peer of a request; also what the sender's struct wgpeer holds. */
  datatype Peer = Peer(key: Octets, remove: bool, replace: bool, psk: Option<Octets>, endpoint: Option<Octets>,
                       keepalive: Option<Octets>, awg: Option<bool>, ips: seq<Ip>)

  datatype Request = Request(name: Octets, settings: seq<(nat, Octets)>, replacePeers: bool, peers: seq<Peer>)

  /** Attribute numbers. */
  const A_IFNAME: nat := 2
  const A_FLAGS: nat := 5
  const A_PEERS: nat := 8
  const A_I1: nat := 21
  const A_I2: nat := 22
  const P_PUBLIC_KEY: nat := 1
  const P_PRESHARED_KEY: nat := 2
  const P_FLAGS: nat := 3
  const P_ENDPOINT: nat := 4
  const P_KEEPALIVE: nat := 5
  const P_ALLOWEDIPS: nat := 9
  const P_AWG: nat := 11
  const I_FAMILY: nat := 1
  const I_IPADDR: nat := 2
  const I_CIDR: nat := 3

  function Le32(n: nat): (r: Octets)
    ensures |r| == 4
    ensures n < 0x1_0000_0000 ==>
      r[0] as nat + 0x100 * r[1] as nat + 0x1_0000 * r[2] as nat + 0x100_0000 * r[3] as nat == n
  {
    Le16(n % 0x1_0000) + Le16(n / 0x1_0000)
  }

  function OptLeaf(ty: nat, v: Option<Octets>): seq<Attr> {
    if v.Some? then [Leaf(ty, v.value)] else []
  }

  // ---- The attribute tree of a request ----

  function IpAttrs(ip: Ip): seq<Attr> {
    [Leaf(I_FAMILY, Le16(ip.family))]
    + (if ip.family == AF_INET || ip.family == AF_INET6 then [Leaf(I_IPADDR, ip.addr)] else [])
    + [Leaf(I_CIDR, [ip.cidr])]
  }

  function IpNests(ips: seq<Ip>): (r: seq<Attr>)
    ensures |r| == |ips|
  {
    if ips == [] then [] else [Nest(0, IpAttrs(ips[0]))] + IpNests(ips[1..])
  }

  function PeerFlags(p: Peer): nat {
    (if p.remove then 1 else 0) + (if p.replace then 2 else 0) + (if p.awg.Some? then 8 else 0)
  }

  /** Everything of a peer except its allowed IPs. */
  function PeerHead(p: Peer): seq<Attr> {
    [Leaf(P_PUBLIC_KEY, p.key)]
    + OptLeaf(P_PRESHARED_KEY, p.psk)
    + OptLeaf(P_ENDPOINT, p.endpoint)
    + OptLeaf(P_KEEPALIVE, p.keepalive)
    + (if (p.awg.Some? && p.awg.value) then [Leaf(P_AWG, [])] else [])
    + (if PeerFlags(p) != 0 then [Leaf(P_FLAGS, Le32(PeerFlags(p)))] else [])
  }

  function PeerAttrs(p: Peer, nest: bool): seq<Attr> {
    PeerHead(p) + if nest then [Nest(P_ALLOWEDIPS, IpNests(p.ips))] else []
  }

  // ---- Reading attributes, one after another ----

  function ReadIp(s: seq<Attr>, ip: Ip): Ip {
    if s == [] then ip else
    ReadIp(s[1..], match s[0]
      case Leaf(ty, v) =>
        if ty == I_FAMILY && |v| == 2 then ip.(family := FromLe16(v[0], v[1]))
        else if ty == I_IPADDR then ip.(addr := v)
        else if ty == I_CIDR && |v| == 1 then ip.(cidr := v[0])
        else ip
      case Nest(_, _) => ip)
  }

  function ReadIps(s: seq<Attr>): seq<Ip> {
    if s == [] then []
    else (if s[0].Nest? then [ReadIp(s[0].kids, Ip(0, [], 0))] else []) + ReadIps(s[1..])
  }

  datatype RawPeer = RawPeer(key: Octets, psk: Option<Octets>, endpoint: Option<Octets>, keepalive: Option<Octets>,
                             awg: bool, flags: nat, ips: seq<Ip>)

  function ReadPeerAttr(a: Attr, r: RawPeer): RawPeer {
    match a
    case Leaf(ty, v) =>
      if ty == P_PUBLIC_KEY then r.(key := v)
      else if ty == P_PRESHARED_KEY then r.(psk := Some(v))
      else if ty == P_ENDPOINT then r.(endpoint := Some(v))
      else if ty == P_KEEPALIVE then r.(keepalive := Some(v))
      else if ty == P_AWG then r.(awg := true)
      else if ty == P_FLAGS && |v| == 4 then r.(flags := FromLe16(v[0], v[1]))
      else r
    case Nest(ty, kids) =>
      if ty == P_ALLOWEDIPS then r.(ips := ReadIps(kids)) else r
  }

  function ReadPeerAttrs(s: seq<Attr>, r: RawPeer): RawPeer {
    if s == [] then r else ReadPeerAttrs(s[1..], ReadPeerAttr(s[0], r))
  }

  const NO_PEER: RawPeer := RawPeer([], None, None, None, false, 0, [])

  /** The flags decide what the other attributes mean. */
  function Interpret(r: RawPeer): Peer {
    Peer(r.key, r.flags % 2 == 1, r.flags / 2 % 2 == 1, r.psk, r.endpoint, r.keepalive,
         if r.flags / 8 % 2 == 1 then Some(r.awg) else None, r.ips)
  }

  function ReadPeer(s: seq<Attr>): Peer { Interpret(ReadPeerAttrs(s, NO_PEER)) }

  function ReadPeers(s: seq<Attr>): seq<Peer> {
    if s == [] then []
    else (if s[0].Nest? then [ReadPeer(s[0].kids)] else []) + ReadPeers(s[1..])
  }

  function ReadRequestAttr(a: Attr, r: Request): Request {
    match a
    case Leaf(ty, v) =>
      if ty == A_IFNAME then r.(name := v)
      else if ty == A_FLAGS && |v| == 4 then r.(replacePeers := v[0] % 2 == 1)
      else r.(settings := r.settings + [(ty, v)])
    case Nest(ty, kids) =>
      if ty == A_PEERS then r.(peers := r.peers + ReadPeers(kids)) else r
  }

  function ReadRequest(s: seq<Attr>, r: Request): Request {
    if s == [] then r else ReadRequest(s[1..], ReadRequestAttr(s[0], r))
  }

  const EMPTY_REQUEST: Request := Request([], [], false, [])

  // ---- The device ----

  datatype Entry = Entry(psk: Option<Octets>, endpoint: Option<Octets>, keepalive: Option<Octets>, awg: bool)

  /** A route is a family and the leading cidr bits of an address. */
  datatype Route = Route(family: nat, prefix: seq<bool>)

  datatype Device = Device(name: Octets, settings: map<nat, Octets>, peers: map<Octets, Entry>,
                           routes: map<Route, Octets>)

  function ByteBits(b: uint8): seq<bool> {
    seq(8, i requires 0 <= i < 8 => b as int / [128, 64, 32, 16, 8, 4, 2, 1][i] % 2 == 1)
  }

  function AddrBits(a: Octets): seq<bool> {
    if a == [] then [] else ByteBits(a[0]) + AddrBits(a[1..])
  }

  function RouteOf(ip: Ip): Route {
    var bits := AddrBits(ip.addr);
    Route(ip.family, if ip.cidr as int <= |bits| then bits[..ip.cidr as int] else bits)
  }

  /** Allowed IPs are exclusive: the last peer to claim a route owns it. */
  function AddRoutes(routes: map<Route, Octets>, ips: seq<Ip>, key: Octets): map<Route, Octets>
    decreases ips
  {
    if ips == [] then routes else AddRoutes(routes[RouteOf(ips[0]) := key], ips[1..], key)
  }

  function DropRoutes(routes: map<Route, Octets>, key: Octets): map<Route, Octets> {
    map r | r in routes && routes[r] != key :: routes[r]
  }

  function Or<T>(v: Option<T>, w: Option<T>): Option<T> { if v.Some? then v else w }

  function ApplyPeer(d: Device, p: Peer): Device {
    if p.remove then d.(peers := d.peers - {p.key}, routes := DropRoutes(d.routes, p.key))
    else
      var e := if p.key in d.peers then d.peers[p.key] else Entry(None, None, None, false);
      var f := Entry(Or(p.psk, e.psk), Or(p.endpoint, e.endpoint), Or(p.keepalive, e.keepalive),
                     if p.awg.Some? then p.awg.value else e.awg);
      var routes := if p.replace then DropRoutes(d.routes, p.key) else d.routes;
      d.(peers := d.peers[p.key := f], routes := AddRoutes(routes, p.ips, p.key))
  }

  function ApplyPeers(d: Device, s: seq<Peer>): Device
    decreases s
  {
    if s == [] then d else ApplyPeers(ApplyPeer(d, s[0]), s[1..])
  }

  function ApplySettings(d: Device, settings: seq<(nat, Octets)>): Device
    decreases settings
  {
    if settings == [] then d
    else ApplySettings(d.(settings := d.settings[settings[0].0 := settings[0].1]), settings[1..])
  }

  function Apply(d: Device, r: Request): Device {
    if r.name != d.name then d
    else
      var e := ApplySettings(d, r.settings);
      ApplyPeers(if r.replacePeers then e.(peers := map[], routes := map[]) else e, r.peers)
  }

  /** Bytes of the netlink and generic netlink headers before the attributes. */
  const PREFIX: nat := 20

  function Receive(d: Device, message: Octets): Device
    requires |message| >= PREFIX
  {
    Apply(d, ReadRequest(Parse(message[PREFIX..]), EMPTY_REQUEST))
  }

  function ReceiveAll(d: Device, messages: seq<Octets>): Device
    requires forall i :: 0 <= i < |messages| ==> |messages[i]| >= PREFIX
    decreases messages
  {
    if messages == [] then d else ReceiveAll(Receive(d, messages[0]), messages[1..])
  }

  // ---- Reading inverts the attribute tree ----

  lemma ReadIpAttrs(ip: Ip)
    requires ValidIp(ip)
    ensures ReadIp(IpAttrs(ip), Ip(0, [], 0)) == ip
  {
    var s := IpAttrs(ip);
    var a := Ip(ip.family, [], 0);
    var b := Ip(ip.family, ip.addr, 0);
    assert ReadIp(s, Ip(0, [], 0)) == ReadIp(s[1..], a);
    if ip.family == AF_INET || ip.family == AF_INET6 {
      assert s[1..][1..] == [Leaf(I_CIDR, [ip.cidr])];
      assert ReadIp(s[1..], a) == ReadIp(s[1..][1..], b);
    } else {
      assert s[1..] == [Leaf(I_CIDR, [ip.cidr])];
      assert ip.addr == [];
    }
    ReadCidr(b, ip.cidr);
  }

  lemma ReadCidr(ip: Ip, cidr: uint8)
    ensures ReadIp([Leaf(I_CIDR, [cidr])], ip) == ip.(cidr := cidr)
  {
    assert [Leaf(I_CIDR, [cidr])][1..] == [];
    assert ReadIp([], ip.(cidr := cidr)) == ip.(cidr := cidr);
  }

  lemma {:induction false} ReadIpNests(ips: seq<Ip>)
    requires forall i :: 0 <= i < |ips| ==> ValidIp(ips[i])
    ensures ReadIps(IpNests(ips)) == ips
  {
    if ips != [] {
      ReadIpAttrs(ips[0]);
      ReadIpNests(ips[1..]);
      assert IpNests(ips)[1..] == IpNests(ips[1..]);
    }
  }

  lemma {:induction false} ReadPeerConcat(s: seq<Attr>, t: seq<Attr>, r: RawPeer)
    ensures ReadPeerAttrs(s + t, r) == ReadPeerAttrs(t, ReadPeerAttrs(s, r))
  {
    if s == [] {
      assert s + t == t;
    } else {
      ReadPeerConcat(s[1..], t, ReadPeerAttr(s[0], r));
      assert (s + t)[1..] == s[1..] + t;
    }
  }

  lemma ReadPeerOne(a: Attr, r: RawPeer)
    ensures ReadPeerAttrs([a], r) == ReadPeerAttr(a, r) && ReadPeerAttrs([], r) == r
  {
    assert [a][1..] == [];
  }

  lemma FlagsRoundTrip(n: nat)
    requires n < 0x1_0000
    ensures FromLe16(Le32(n)[0], Le32(n)[1]) == n
  {
  }

  lemma ReadOptional(ty: nat, o: Option<Octets>, r: RawPeer)
    ensures ReadPeerAttrs(OptLeaf(ty, o), r) == if o.Some? then ReadPeerAttr(Leaf(ty, o.value), r) else r
  {
    hide ReadPeerAttr, ReadPeerAttrs;
    ReadPeerOne(Leaf(ty, if o.Some? then o.value else []), r);
  }

  lemma ReadFields(p: Peer)
    ensures ReadPeerAttrs([Leaf(P_PUBLIC_KEY, p.key)] + OptLeaf(P_PRESHARED_KEY, p.psk)
                          + OptLeaf(P_ENDPOINT, p.endpoint)
                          + OptLeaf(P_KEEPALIVE, p.keepalive), NO_PEER)
            == RawPeer(p.key, p.psk, p.endpoint, p.keepalive, false, 0, [])
  {
    hide ReadPeerAttrs, OptLeaf;
    var s0 := [Leaf(P_PUBLIC_KEY, p.key)];
    var s1, s2, s3 := OptLeaf(P_PRESHARED_KEY, p.psk), OptLeaf(P_ENDPOINT, p.endpoint),
        OptLeaf(P_KEEPALIVE, p.keepalive);
    var r0 := RawPeer(p.key, None, None, None, false, 0, []);
    var r1 := r0.(psk := p.psk);
    var r2 := r1.(endpoint := p.endpoint);
    ReadPeerOne(s0[0], NO_PEER);
    ReadOptional(P_PRESHARED_KEY, p.psk, r0);
    ReadOptional(P_ENDPOINT, p.endpoint, r1);
    ReadOptional(P_KEEPALIVE, p.keepalive, r2);
    ReadPeerConcat(s0 + s1 + s2, s3, NO_PEER);
    ReadPeerConcat(s0 + s1, s2, NO_PEER);
    ReadPeerConcat(s0, s1, NO_PEER);
  }

  lemma ReadPeerHead(p: Peer)
    ensures ReadPeerAttrs(PeerHead(p), NO_PEER) ==
            RawPeer(p.key, p.psk, p.endpoint, p.keepalive, (p.awg.Some? && p.awg.value), PeerFlags(p), [])
  {
    var fields := [Leaf(P_PUBLIC_KEY, p.key)] + OptLeaf(P_PRESHARED_KEY, p.psk) + OptLeaf(P_ENDPOINT, p.endpoint)
                  + OptLeaf(P_KEEPALIVE, p.keepalive);
    var on := p.awg.Some? && p.awg.value;
    var s4 := if on then [Leaf(P_AWG, [])] else [];
    var s5 := if PeerFlags(p) != 0 then [Leaf(P_FLAGS, Le32(PeerFlags(p)))] else [];
    FlagsRoundTrip(PeerFlags(p));
    hide ReadPeerAttrs, Le32, OptLeaf, PeerFlags;
    ReadFields(p);
    var r3 := RawPeer(p.key, p.psk, p.endpoint, p.keepalive, false, 0, []);
    ReadPeerOne(Leaf(P_AWG, []), r3);
    ReadPeerOne(Leaf(P_FLAGS, Le32(PeerFlags(p))), r3.(awg := on));
    ReadPeerConcat(fields + s4, s5, NO_PEER);
    ReadPeerConcat(fields, s4, NO_PEER);
  }

  ghost predicate ValidIps(ips: seq<Ip>) {
    forall i :: 0 <= i < |ips| ==> ValidIp(ips[i])
  }

  /** Reading a peer's attributes gives the peer back. */
  lemma ReadPeerAttributes(p: Peer, nest: bool)
    requires ValidIps(p.ips) && (nest || p.ips == [])
    ensures ReadPeer(PeerAttrs(p, nest)) == p
  {
    hide ReadPeerAttrs, PeerHead, IpNests, ReadIps;
    ReadPeerHead(p);
    ReadIpNests(p.ips);
    var r := RawPeer(p.key, p.psk, p.endpoint, p.keepalive, (p.awg.Some? && p.awg.value), PeerFlags(p), []);
    var tail := if nest then [Nest(P_ALLOWEDIPS, IpNests(p.ips))] else [];
    ReadPeerConcat(PeerHead(p), tail, NO_PEER);
    ReadPeerOne(Nest(P_ALLOWEDIPS, IpNests(p.ips)), r);
    FlagBits(p);
    assert ReadPeerAttrs(PeerAttrs(p, nest), NO_PEER) == r.(ips := p.ips);
    assert p.awg.Some? ==> p.awg == Some(r.awg);
    assert Interpret(r.(ips := p.ips)) == p;
  }

  lemma FlagBits(p: Peer)
    ensures PeerFlags(p) % 2 == 1 <==> p.remove
    ensures PeerFlags(p) / 2 % 2 == 1 <==> p.replace
    ensures PeerFlags(p) / 8 % 2 == 1 <==> p.awg.Some?
  {
  }
}
