/** The octets of a request as uapi/linux/wireguard.h numbers them, and what the
    receiver does with one peer, spelled out. */
module WireFormat {
  import opened Options
  import opened MachineInts
  import opened Netlink
  import opened KernelDevice
  import opened SetDevice

  /** Zeros up to a multiple of four. */
  function Padding(n: nat): Octets {
    if n % 4 == 0 then [] else if n % 4 == 1 then [0, 0, 0] else if n % 4 == 2 then [0, 0] else [0]
  }

  /** A short attribute: length, type, payload and zeros up to a multiple of four. */
  lemma LeafOctets(ty: uint8, payload: Octets)
    requires |payload| < 252
    ensures Encode(Leaf(ty as nat, payload))
        == [(|payload| + 4) as uint8, 0, ty, 0] + payload + Padding(|payload|)
  {
    assert Le16(ty as nat) == [ty, 0];
    assert Le16(|payload| + 4) == [(|payload| + 4) as uint8, 0];
    assert Zeros(Align(|payload|) - |payload|) == Padding(|payload|);
  }

  /** A nest: the type has its highest bit set. */
  lemma NestOctets(ty: uint8, kids: seq<Attr>)
    requires |EncodeAll(kids)| + 4 < 0x1_0000
    ensures var n := |EncodeAll(kids)| + 4;
            Encode(Nest(ty as nat, kids)) == [(n % 256) as uint8, (n / 256) as uint8, ty, 128] + EncodeAll(kids)
  {
    hide EncodeAll;
    var n := |EncodeAll(kids)| + 4;
    assert Le16(NESTED + ty as nat) == [ty, 128];
    assert Le16(n) == [(n % 256) as uint8, (n / 256) as uint8];
  }

  lemma WholeLeaf(ty: uint8, payload: Octets)
    requires |payload| < 252 && |payload| % 4 == 0
    ensures EncodeAll([Leaf(ty as nat, payload)]) == [(|payload| + 4) as uint8, 0, ty, 0] + payload
  {
    hide Encode, EncodeAll;
    EncodeOne(Leaf(ty as nat, payload));
    LeafOctets(ty, payload);
  }

  function Given(o: Option<Octets>, head: Octets, tail: Octets): Octets {
    if o.Some? then head + o.value + tail else []
  }

  lemma OptionOctets(ty: uint8, o: Option<Octets>, n: nat)
    requires n < 252 && (o.Some? ==> |o.value| == n)
    ensures EncodeAll(OptLeaf(ty as nat, o)) == Given(o, [(n + 4) as uint8, 0, ty, 0], Padding(n))
  {
    hide Encode, EncodeAll;
    if o.Some? {
      EncodeOne(Leaf(ty as nat, o.value));
      LeafOctets(ty, o.value);
    } else {
      EncodeNone();
    }
  }

  /** The endpoint, of either family. */
  function EndpointOctets(e: Option<Octets>): Octets {
    if e.None? then [] else [if |e.value| == 16 then 20 else 32, 0, 4, 0] + e.value
  }

  lemma EndpointWire(e: Option<Octets>)
    requires e.Some? ==> |e.value| == 16 || |e.value| == 28
    ensures EncodeAll(OptLeaf(P_ENDPOINT, e)) == EndpointOctets(e)
  {
    hide Encode, EncodeAll;
    OptionOctets(4, e, if e.Some? then |e.value| else 0);
  }

  /** A flags attribute. */
  lemma FlagsLeaf(ty: uint8, flags: uint8)
    ensures EncodeAll([Leaf(ty as nat, Le32(flags as nat))]) == [8, 0, ty, 0, flags, 0, 0, 0]
  {
    assert Le32(flags as nat) == [flags, 0, 0, 0];
    hide Encode, EncodeAll, Le32;
    WholeLeaf(ty, [flags, 0, 0, 0]);
  }

  function FlagsOf(p: Peer): uint8 {
    (if p.remove then 1 else 0) + (if p.replace then 2 else 0) + if p.awg.Some? then 8 else 0
  }

  lemma FlagsWire(p: Peer)
    ensures EncodeAll(AwgAndFlags(p)) == (if p.awg == Some(true) then [4, 0, 11, 0] else [])
                                         + if FlagsOf(p) == 0 then [] else [8, 0, 3, 0, FlagsOf(p), 0, 0, 0]
  {
    FlagsAreNumber(p);
    hide Encode, EncodeAll, Le32, PeerFlags, FlagsOf;
    var awg := if p.awg.Some? && p.awg.value then [Leaf(P_AWG, [])] else [];
    var bits := if PeerFlags(p) != 0 then [Leaf(P_FLAGS, Le32(PeerFlags(p)))] else [];
    EncodeConcat(awg, bits);
    EncodeNone();
    WholeLeaf(11, []);
    FlagsLeaf(3, FlagsOf(p));
  }

  lemma FlagsAreNumber(p: Peer)
    ensures PeerFlags(p) == FlagsOf(p) as nat
  {
  }

  lemma FreshWire(p: Peer)
    requires ValidPeer(p)
    ensures EncodeAll(FreshAttrs(p)) == Given(p.psk, [36, 0, 2, 0], [])
                                        + (EndpointOctets(p.endpoint) + Given(p.keepalive, [6, 0, 5, 0], [0, 0]))
  {
    hide Encode, EncodeAll, OptLeaf, Given;
    var psk, end, alive := OptLeaf(P_PRESHARED_KEY, p.psk), OptLeaf(P_ENDPOINT, p.endpoint),
        OptLeaf(P_KEEPALIVE, p.keepalive);
    EncodeConcat(psk, end + alive);
    EncodeConcat(end, alive);
    OptionOctets(2, p.psk, 32);
    EndpointWire(p.endpoint);
    OptionOctets(5, p.keepalive, 2);
  }

  /** A peer of a request, attribute by attribute: key 1, preshared key 2, endpoint 4,
      keepalive 5, the AWG flag 11 and the flags 3 (remove 1, replace 2, AWG 8). */
  lemma PeerOctets(p: Peer)
    requires ValidPeer(p)
    ensures EncodeAll(PeerHead(p))
        == [36, 0, 1, 0] + p.key
           + (Given(p.psk, [36, 0, 2, 0], []) + (EndpointOctets(p.endpoint) + Given(p.keepalive, [6, 0, 5, 0], [0, 0])))
           + ((if p.awg == Some(true) then [4, 0, 11, 0] else [])
              + if FlagsOf(p) == 0 then [] else [8, 0, 3, 0, FlagsOf(p), 0, 0, 0])
  {
    hide Encode, EncodeAll, Given, EndpointOctets, FlagsOf, FreshAttrs, AwgAndFlags, PeerHead;
    var key := [Leaf(P_PUBLIC_KEY, p.key)];
    HeadSplits(p, true);
    EncodeConcat(key + FreshAttrs(p), AwgAndFlags(p));
    EncodeConcat(key, FreshAttrs(p));
    WholeLeaf(1, p.key);
    FreshWire(p);
    FlagsWire(p);
  }

  lemma IpLeaves(ip: Ip)
    requires ValidIp(ip) && |ip.addr| > 0
    ensures EncodeAll(IpAttrs(ip))
        == [6, 0, 1, 0, ip.family as uint8, 0, 0, 0] + ([(|ip.addr| + 4) as uint8, 0, 2, 0] + ip.addr)
           + [5, 0, 3, 0, ip.cidr, 0, 0, 0]
  {
    hide Encode, EncodeAll;
    var family, cidr := Le16(ip.family), [ip.cidr];
    assert family == [ip.family as uint8, 0];
    hide Le16;
    var a, b, c := [Leaf(I_FAMILY, family)], [Leaf(I_IPADDR, ip.addr)], [Leaf(I_CIDR, cidr)];
    assert IpAttrs(ip) == a + b + c;
    EncodeConcat(a + b, c);
    EncodeConcat(a, b);
    EncodeOne(a[0]);
    EncodeOne(c[0]);
    LeafOctets(1, family);
    WholeLeaf(2, ip.addr);
    LeafOctets(3, cidr);
  }

  /** The allowed IPs of a peer come in nest 9, each in a nest 0: family 1, address 2
      and prefix length 3. */
  lemma AllowedIpOctets(ip: Ip)
    requires ValidIp(ip) && |ip.addr| > 0
    ensures EncodeAll([Nest(0, IpAttrs(ip))])
        == (if |ip.addr| == 4 then [28, 0, 0, 128] + [6, 0, 1, 0, 2, 0, 0, 0] + [8, 0, 2, 0]
            else [40, 0, 0, 128] + [6, 0, 1, 0, 10, 0, 0, 0] + [20, 0, 2, 0])
           + ip.addr + [5, 0, 3, 0, ip.cidr, 0, 0, 0]
  {
    hide Encode, EncodeAll, IpAttrs;
    IpLeaves(ip);
    EncodeOne(Nest(0, IpAttrs(ip)));
    NestOctets(0, IpAttrs(ip));
  }

  lemma AllowedIpsNest(p: Peer)
    requires |EncodeAll(IpNests(p.ips))| + 4 < 0x1_0000
    ensures var n := |EncodeAll(IpNests(p.ips))| + 4;
            EncodeAll(PeerAttrs(p, true))
            == EncodeAll(PeerHead(p)) + ([(n % 256) as uint8, (n / 256) as uint8, 9, 128] + EncodeAll(IpNests(p.ips)))
  {
    hide Encode, EncodeAll, PeerHead;
    EncodeConcat(PeerHead(p), [Nest(P_ALLOWEDIPS, IpNests(p.ips))]);
    EncodeOne(Nest(P_ALLOWEDIPS, IpNests(p.ips)));
    NestOctets(9, IpNests(p.ips));
  }

  /** The front of a message: the name 2, the settings, the flags 5 of the device. */
  lemma FrontOctets(dev: Request)
    requires |dev.name| <= 16
    ensures var name := [(|dev.name| + 4) as uint8, 0, 2, 0] + dev.name + Padding(|dev.name|);
            && EncodeAll(FrontAttrs(dev, false)) == name
            && EncodeAll(FrontAttrs(dev, true))
               == name + EncodeAll(SettingAttrs(dev.settings))
                  + if dev.replacePeers then [8, 0, 5, 0, 1, 0, 0, 0] else []
  {
    hide Encode, EncodeAll, SettingAttrs, Le32, Padding;
    var head, rest, flags := [Leaf(A_IFNAME, dev.name)], SettingAttrs(dev.settings), FlagAttrs(dev.replacePeers);
    EncodeOne(Leaf(A_IFNAME, dev.name));
    LeafOctets(2, dev.name);
    assert FrontAttrs(dev, false) == head;
    assert head + (rest + flags) == head + rest + flags;
    EncodeConcat(head + rest, flags);
    EncodeConcat(head, rest);
    EncodeNone();
    FlagsLeaf(5, 1);
  }

  /** And the peers follow in nest 8. */
  lemma PeersNest(nests: seq<Attr>)
    requires |EncodeAll(nests)| + 4 < 0x1_0000
    ensures var n := |EncodeAll(nests)| + 4;
            EncodeAll([Nest(A_PEERS, nests)]) == [(n % 256) as uint8, (n / 256) as uint8, 8, 128] + EncodeAll(nests)
  {
    hide Encode, EncodeAll;
    EncodeOne(Nest(A_PEERS, nests));
    NestOctets(8, nests);
  }

  // ---- The receiver ----

  /** The peer a route belongs to. */
  function Owner(d: Device, r: Route): Option<Octets> {
    if r in d.routes then Some(d.routes[r]) else None
  }

  lemma {:induction false} RoutesAdded(routes: map<Route, Octets>, ips: seq<Ip>, key: Octets, r: Route)
    ensures (exists i :: 0 <= i < |ips| && RouteOf(ips[i]) == r) ==>
      r in AddRoutes(routes, ips, key) && AddRoutes(routes, ips, key)[r] == key
    ensures !(exists i :: 0 <= i < |ips| && RouteOf(ips[i]) == r) ==>
      (r in AddRoutes(routes, ips, key) <==> r in routes)
      && (r in routes ==> AddRoutes(routes, ips, key)[r] == routes[r])
    decreases ips
  {
    hide RouteOf;
    if ips != [] {
      var next := routes[RouteOf(ips[0]) := key];
      RoutesAdded(next, ips[1..], key, r);
      if i :| 0 <= i < |ips| && RouteOf(ips[i]) == r {
        if i > 0 {
          assert RouteOf(ips[1..][i - 1]) == r;
        }
      } else {
        assert RouteOf(ips[0]) != r;
      }
    }
  }

  /** A peer that is removed goes with its routes, and nothing else changes. */
  lemma RemovedPeer(d: Device, p: Peer, key: Octets, r: Route)
    requires p.remove
    ensures var e := ApplyPeer(d, p);
            && p.key !in e.peers && e.name == d.name && e.settings == d.settings
            && (key != p.key ==> (key in e.peers <==> key in d.peers)
                                 && (key in d.peers ==> e.peers[key] == d.peers[key]))
            && Owner(e, r) == if Owner(d, r) == Some(p.key) then None else Owner(d, r)
  {
  }

  /** Any other peer is there afterwards: what the request gives replaces what there
      was, what it does not give stays or, for a new peer, is absent; each of its
      allowed IPs is a route to it, and its other routes go if it asks for that. */
  lemma UpdatedPeer(d: Device, p: Peer, key: Octets, r: Route)
    requires !p.remove
    ensures var e := ApplyPeer(d, p);
            var before := if p.key in d.peers then Some(d.peers[p.key]) else None;
            && p.key in e.peers && e.name == d.name && e.settings == d.settings
            && e.peers[p.key].psk
               == (if p.psk.Some? then p.psk else if before.Some? then before.value.psk else None)
            && e.peers[p.key].endpoint
               == (if p.endpoint.Some? then p.endpoint else if before.Some? then before.value.endpoint else None)
            && e.peers[p.key].keepalive
               == (if p.keepalive.Some? then p.keepalive else if before.Some? then before.value.keepalive else None)
            && e.peers[p.key].awg
               == (if p.awg.Some? then p.awg.value else before.Some? && before.value.awg)
            && (key != p.key ==> (key in e.peers <==> key in d.peers)
                                 && (key in d.peers ==> e.peers[key] == d.peers[key]))
            && Owner(e, r) == if exists i :: 0 <= i < |p.ips| && RouteOf(p.ips[i]) == r then Some(p.key)
                              else if p.replace && Owner(d, r) == Some(p.key) then None else Owner(d, r)
  {
    hide RouteOf, AddRoutes;
    RoutesAdded(if p.replace then DropRoutes(d.routes, p.key) else d.routes, p.ips, p.key, r);
  }

  /** Bit 8i + j of an address, from the left. */
  lemma {:induction false} AddressBit(a: Octets, i: nat, j: nat)
    requires i < |a| && j < 8
    ensures |AddrBits(a)| == 8 * |a|
    ensures AddrBits(a)[8 * i + j] <==> a[i] as nat / [128, 64, 32, 16, 8, 4, 2, 1][j] % 2 == 1
  {
    if i > 0 {
      AddressBit(a[1..], i - 1, j);
      assert a[1..][i - 1] == a[i];
    } else if |a| > 1 {
      AddressBit(a[1..], 0, j);
    } else {
      assert AddrBits(a[1..]) == [];
    }
  }

  /** Two allowed IPs are one route exactly if their families agree and the bits of
      their prefixes do. */
  lemma SameRoute(x: Ip, y: Ip)
    requires x.cidr as nat <= 8 * |x.addr| && y.cidr as nat <= 8 * |y.addr|
    ensures |AddrBits(x.addr)| == 8 * |x.addr| && |AddrBits(y.addr)| == 8 * |y.addr|
    ensures RouteOf(x) == RouteOf(y) <==>
      x.family == y.family && x.cidr == y.cidr
      && forall k :: 0 <= k < x.cidr as nat ==> AddrBits(x.addr)[k] == AddrBits(y.addr)[k]
  {
    hide AddrBits;
    BitCount(x.addr);
    BitCount(y.addr);
    var n, m := x.cidr as nat, y.cidr as nat;
    var a, b := AddrBits(x.addr), AddrBits(y.addr);
    assert RouteOf(x) == Route(x.family, a[..n]) && RouteOf(y) == Route(y.family, b[..m]);
    assert n == m && (forall k :: 0 <= k < n ==> a[k] == b[k]) ==> a[..n] == b[..m];
    assert a[..n] == b[..m] ==> n == m && forall k :: 0 <= k < n ==> a[..n][k] == b[..m][k];
  }

  lemma {:induction false} BitCount(a: Octets)
    ensures |AddrBits(a)| == 8 * |a|
  {
    if a != [] {
      BitCount(a[1..]);
    }
  }

  /** Of the settings of one number the last counts; the others stay. */
  lemma {:induction false} SettingStored(d: Device, s: seq<(nat, Octets)>, k: nat)
    ensures var e := ApplySettings(d, s);
            && e == d.(settings := e.settings)
            && (k in e.settings <==> k in d.settings || exists i :: 0 <= i < |s| && s[i].0 == k)
            && (forall i :: 0 <= i < |s| && s[i].0 == k && (forall j :: i < j < |s| ==> s[j].0 != k) ==>
                  e.settings[k] == s[i].1)
            && ((forall i :: 0 <= i < |s| ==> s[i].0 != k) && k in d.settings ==> e.settings[k] == d.settings[k])
    decreases s
  {
    if s != [] {
      var next := d.(settings := d.settings[s[0].0 := s[0].1]);
      SettingStored(next, s[1..], k);
      assert forall i :: 0 < i < |s| ==> s[1..][i - 1] == s[i];
      var e := ApplySettings(d, s);
      assert e == ApplySettings(next, s[1..]);
    }
  }

  /** A request for another interface does nothing; REPLACE_PEERS removes all peers
      and routes before the peers of the request come, and otherwise they stay. */
  lemma RequestApplied(d: Device, r: Request)
    ensures r.name != d.name ==> Apply(d, r) == d
    ensures r.name == d.name && r.peers == [] ==>
      Apply(d, r) == (if r.replacePeers then ApplySettings(d, r.settings).(peers := map[], routes := map[])
                      else ApplySettings(d, r.settings))
    ensures r.name == d.name && |r.peers| > 0 ==>
      Apply(d, r) == ApplyPeer(Apply(d, r.(peers := r.peers[..|r.peers| - 1])), r.peers[|r.peers| - 1])
  {
    hide ApplyPeer, ApplySettings;
    if r.name == d.name && |r.peers| > 0 {
      var n := |r.peers| - 1;
      var e := ApplySettings(d, r.settings);
      var f := if r.replacePeers then e.(peers := map[], routes := map[]) else e;
      assert r.peers == r.peers[..n] + [r.peers[n]];
      ApplyPeersConcat(f, r.peers[..n], [r.peers[n]]);
      ApplyOne(ApplyPeers(f, r.peers[..n]), r.peers[n]);
    }
  }
}
