/** kernel_set_device (ipc-linux.h): one logical update sent as size-limited
    messages. */
module SetDevice {
  import opened Options
  import opened MachineInts
  import opened Netlink
  import opened KernelDevice

  predicate ValidPeer(p: Peer) {
    && |p.key| == 32
    && (p.psk.Some? ==> |p.psk.value| == 32)
    && (p.endpoint.Some? ==> |p.endpoint.value| == 16 || |p.endpoint.value| == 28)
    && (p.keepalive.Some? ==> |p.keepalive.value| == 2)
    && forall i :: 0 <= i < |p.ips| ==> ValidIp(p.ips[i])
  }

  // ---- What a piece of a peer means ----

  /** A later piece of a peer: no preshared key, endpoint or keepalive, and no
      request to replace the allowed IPs. */
  function Continuation(p: Peer, ips: seq<Ip>): Peer {
    Peer(p.key, p.remove, false, None, None, None, p.awg, ips)
  }

  function Piece(p: Peer, resume: Option<nat>, k: nat): Peer
    requires k <= |p.ips| && (resume.Some? ==> resume.value <= k)
  {
    if resume.None? then p.(ips := p.ips[..k]) else Continuation(p, p.ips[resume.value..k])
  }

  lemma {:induction false} AddRoutesConcat(routes: map<Route, Octets>, a: seq<Ip>, b: seq<Ip>, key: Octets)
    ensures AddRoutes(routes, a + b, key) == AddRoutes(AddRoutes(routes, a, key), b, key)
    decreases a
  {
    hide AddRoutes, RouteOf;
    if a == [] {
      assert a + b == b;
      AddNoRoutes(routes, key);
    } else {
      AddRoutesConcat(routes[RouteOf(a[0]) := key], a[1..], b, key);
      assert (a + b)[0] == a[0] && (a + b)[1..] == a[1..] + b;
      AddFirstRoute(routes, a, key);
      AddFirstRoute(routes, a + b, key);
    }
  }

  lemma AddNoRoutes(routes: map<Route, Octets>, key: Octets)
    ensures AddRoutes(routes, [], key) == routes
  {
  }

  lemma AddFirstRoute(routes: map<Route, Octets>, ips: seq<Ip>, key: Octets)
    requires ips != []
    ensures AddRoutes(routes, ips, key) == AddRoutes(routes[RouteOf(ips[0]) := key], ips[1..], key)
  {
    hide RouteOf;
  }

  /** A peer sent in two pieces is the peer sent at once. */
  lemma PiecesJoin(d: Device, p: Peer, a: seq<Ip>, b: seq<Ip>)
    ensures ApplyPeer(ApplyPeer(d, p.(ips := a)), Continuation(p, b)) == ApplyPeer(d, p.(ips := a + b))
  {
    if p.remove {
      RemoveTwice(d, p, a, b);
    } else {
      var routes := if p.replace then DropRoutes(d.routes, p.key) else d.routes;
      AddRoutesConcat(routes, a, b, p.key);
      hide AddRoutes, DropRoutes;
      var x, y := ApplyPeer(ApplyPeer(d, p.(ips := a)), Continuation(p, b)), ApplyPeer(d, p.(ips := a + b));
      assert x.peers == y.peers;
    }
  }

  lemma RemoveTwice(d: Device, p: Peer, a: seq<Ip>, b: seq<Ip>)
    requires p.remove
    ensures ApplyPeer(ApplyPeer(d, p.(ips := a)), Continuation(p, b)) == ApplyPeer(d, p.(ips := a + b))
  {
    var e := ApplyPeer(d, p);
    assert e.peers - {p.key} == e.peers;
    assert DropRoutes(e.routes, p.key) == e.routes;
  }

  /** Where the sender stands: `resume` is the next allowed IP of a peer that has
      already been announced. */
  datatype Cursor = Cursor(peer: nat, resume: Option<nat>)

  ghost predicate ValidCursor(peers: seq<Peer>, c: Cursor) {
    && c.peer <= |peers|
    && (c.resume.Some? ==> c.peer < |peers| && c.resume.value < |peers[c.peer].ips|)
  }

  /** The device once everything before the cursor has been applied. */
  ghost function Progress(d: Device, peers: seq<Peer>, c: Cursor): Device
    requires ValidCursor(peers, c)
  {
    var e := ApplyPeers(d, peers[..c.peer]);
    if c.resume.None? then e
    else ApplyPeer(e, peers[c.peer].(ips := peers[c.peer].ips[..c.resume.value]))
  }

  lemma {:induction false} ApplyPeersConcat(d: Device, s: seq<Peer>, t: seq<Peer>)
    ensures ApplyPeers(d, s + t) == ApplyPeers(ApplyPeers(d, s), t)
    decreases s
  {
    if s == [] {
      assert s + t == t;
    } else {
      ApplyPeersConcat(ApplyPeer(d, s[0]), s[1..], t);
      assert (s + t)[1..] == s[1..] + t;
    }
  }

  lemma ApplyOne(d: Device, p: Peer)
    ensures ApplyPeers(d, [p]) == ApplyPeer(d, p)
  {
    assert [p][1..] == [];
  }

  function After(peers: seq<Peer>, i: nat, k: nat): Cursor
    requires i < |peers|
  {
    if k < |peers[i].ips| then Cursor(i, Some(k)) else Cursor(i + 1, None)
  }

  /** Applying a piece moves the device from one cursor to the next. */
  lemma PieceAdvances(d: Device, peers: seq<Peer>, c: Cursor, k: nat)
    requires ValidCursor(peers, c) && c.peer < |peers| && k <= |peers[c.peer].ips|
    requires c.resume.Some? ==> c.resume.value <= k
    ensures ApplyPeer(Progress(d, peers, c), Piece(peers[c.peer], c.resume, k)) ==
            Progress(d, peers, After(peers, c.peer, k))
  {
    var i, p := c.peer, peers[c.peer];
    var e := ApplyPeers(d, peers[..i]);
    hide ApplyPeer, AddRoutes;
    if c.resume.Some? {
      PiecesJoin(e, p, p.ips[..c.resume.value], p.ips[c.resume.value..k]);
      assert p.ips[..c.resume.value] + p.ips[c.resume.value..k] == p.ips[..k];
    }
    if k == |p.ips| {
      assert p.ips[..k] == p.ips;
      assert p.(ips := p.ips) == p;
      assert peers[..i + 1] == peers[..i] + [p];
      ApplyPeersConcat(d, peers[..i], [p]);
      ApplyOne(e, p);
    }
  }

  // ---- Sizes ----

  function LeafSize(n: nat): nat { HDRLEN + Align(n) }

  function IpSize(ip: Ip): nat {
    HDRLEN + 8 + (if ip.family == AF_INET then 8 else if ip.family == AF_INET6 then 20 else 0) + 8
  }

  function HeadSize(p: Peer): nat {
    LeafSize(|p.key|)
    + (if p.psk.Some? then LeafSize(|p.psk.value|) else 0)
    + (if p.endpoint.Some? then LeafSize(|p.endpoint.value|) else 0)
    + (if p.keepalive.Some? then LeafSize(|p.keepalive.value|) else 0)
    + (if p.awg.Some? && p.awg.value then 4 else 0)
    + (if PeerFlags(p) != 0 then 8 else 0)
  }

  // ---- Filling one message ----

  /** One checked attribute inside an open nest. */
  method PutIn(m: Message, buflen: nat, ty: nat, payload: Octets,
               ghost base: Octets, ghost nest: nat, ghost body: seq<Attr>)
    returns (ok: bool)
    requires Open(m.bytes, base, nest, body) && Fitting(payload)
    modifies m
    ensures ok == (|old(m.bytes)| + LeafSize(|payload|) <= buflen)
    ensures Open(m.bytes, base, nest, if ok then body + [Leaf(ty, payload)] else body)
    ensures |m.bytes| == |old(m.bytes)| + if ok then LeafSize(|payload|) else 0
  {
    hide Open, EncodeAll;
    OpenGrows(m.bytes, base, nest, body, [Leaf(ty, payload)]);
    ok := m.PutCheck(buflen, ty, payload);
  }

  lemma OpenKeepsBase(bytes: Octets, base: Octets, ty: nat, body: seq<Attr>)
    requires Open(bytes, base, ty, body)
    ensures |base| <= |bytes| && bytes[..|base|] == base
  {
  }

  /** The nest of one allowed IP, or nothing. */
  method PutIp(m: Message, buflen: nat, ip: Ip) returns (ok: bool)
    requires ValidIp(ip)
    modifies m
    ensures ok == (|old(m.bytes)| + IpSize(ip) <= buflen)
    ensures m.bytes == if ok then old(m.bytes) + EncodeAll([Nest(0, IpAttrs(ip))]) else old(m.bytes)
    ensures ok ==> |m.bytes| == |old(m.bytes)| + IpSize(ip)
  {
    hide EncodeAll, Open, Le16;
    ghost var base := m.bytes;
    var started, start := m.NestStartCheck(buflen, 0);
    if !started {
      return false;
    }
    ghost var body: seq<Attr> := [];
    var leaf := Le16(ip.family);
    ok := PutIn(m, buflen, I_FAMILY, leaf, base, 0, body);
    if ok {
      body := body + [Leaf(I_FAMILY, leaf)];
      if ip.family == AF_INET || ip.family == AF_INET6 {
        ok := PutIn(m, buflen, I_IPADDR, ip.addr, base, 0, body);
        body := if ok then body + [Leaf(I_IPADDR, ip.addr)] else body;
      }
      if ok {
        ok := PutIn(m, buflen, I_CIDR, [ip.cidr], base, 0, body);
        body := if ok then body + [Leaf(I_CIDR, [ip.cidr])] else body;
      }
    }
    if ok {
      assert body == IpAttrs(ip);
      m.NestEnd(start, base, 0, body);
    } else {
      OpenKeepsBase(m.bytes, base, 0, body);
      m.NestCancel(start, base);
    }
  }

  lemma {:induction false} IpNestsConcat(s: seq<Ip>, t: seq<Ip>)
    ensures IpNests(s + t) == IpNests(s) + IpNests(t)
  {
    hide IpAttrs;
    if s == [] {
      assert s + t == t;
    } else {
      var a, b, c := [Nest(0, IpAttrs(s[0]))], IpNests(s[1..]), IpNests(t);
      IpNestsConcat(s[1..], t);
      assert (s + t)[0] == s[0] && (s + t)[1..] == s[1..] + t;
      assert a + (b + c) == a + b + c;
    }
  }

  lemma IpNestsNext(ips: seq<Ip>, lo: nat, k: nat)
    requires lo <= k < |ips|
    ensures IpNests(ips[lo..k + 1]) == IpNests(ips[lo..k]) + [Nest(0, IpAttrs(ips[k]))]
  {
    assert ips[lo..k + 1] == ips[lo..k] + [ips[k]];
    IpNestsConcat(ips[lo..k], [ips[k]]);
    assert [ips[k]][1..] == [];
  }

  /** The loop over allowed IPs: as many from `lo` on as there is room for. */
  method PutIps(m: Message, buflen: nat, ips: seq<Ip>, lo: nat, ghost base: Octets) returns (k: nat)
    requires lo <= |ips| && forall i :: 0 <= i < |ips| ==> ValidIp(ips[i])
    requires Open(m.bytes, base, P_ALLOWEDIPS, []) && |m.bytes| <= buflen
    modifies m
    ensures lo <= k <= |ips| && |m.bytes| <= buflen
    ensures Open(m.bytes, base, P_ALLOWEDIPS, IpNests(ips[lo..k]))
    ensures k == lo < |ips| ==> |old(m.bytes)| + IpSize(ips[lo]) > buflen
  {
    hide Open, EncodeAll, IpNests, IpAttrs;
    k := lo;
    assert IpNests(ips[lo..lo]) == [] by { IpNestsNone(); assert ips[lo..lo] == []; }
    while k < |ips|
      invariant lo <= k <= |ips| && |m.bytes| <= buflen
      invariant Open(m.bytes, base, P_ALLOWEDIPS, IpNests(ips[lo..k]))
      invariant k == lo ==> m.bytes == old(m.bytes)
    {
      IpNestsNext(ips, lo, k);
      OpenGrows(m.bytes, base, P_ALLOWEDIPS, IpNests(ips[lo..k]), [Nest(0, IpAttrs(ips[k]))]);
      var ok := PutIp(m, buflen, ips[k]);
      if !ok {
        return;
      }
      k := k + 1;
    }
  }

  lemma IpNestsNone()
    ensures IpNests([]) == []
  {
  }

  method PutOptIn(m: Message, buflen: nat, ty: nat, v: Option<Octets>, ghost base: Octets, ghost body: seq<Attr>)
    returns (ok: bool)
    requires Open(m.bytes, base, 0, body) && (v.Some? ==> Fitting(v.value))
    modifies m
    ensures ok == (v.None? || |old(m.bytes)| + LeafSize(|v.value|) <= buflen)
    ensures Open(m.bytes, base, 0, if ok then body + OptLeaf(ty, v) else body)
    ensures |m.bytes| == |old(m.bytes)| + if ok && v.Some? then LeafSize(|v.value|) else 0
  {
    hide Open;
    ok := true;
    if v.Some? {
      ok := PutIn(m, buflen, ty, v.value, base, 0, body);
    } else {
      assert body + OptLeaf(ty, v) == body;
    }
  }

  /** The attributes of a peer up to its flags.  The result of putting the AWG
      attribute is not looked at: when it does not fit, the flags do not fit
      either, so it is never silently lost. */
  method PutHead(m: Message, buflen: nat, p: Peer, first: bool, ghost base: Octets) returns (ok: bool)
    requires Open(m.bytes, base, 0, []) && ValidPeer(p)
    modifies m
    ensures var q := if first then p else Continuation(p, p.ips);
            && (|old(m.bytes)| + HeadSize(q) <= buflen ==> ok)
            && (ok ==> Open(m.bytes, base, 0, PeerHead(q)) && |m.bytes| == |old(m.bytes)| + HeadSize(q) <= buflen)
    ensures |base| <= |m.bytes| && m.bytes[..|base|] == base
  {
    hide Open, Le32, PeerHead, AwgAndFlags, FreshAttrs;
    ghost var body: seq<Attr> := [];
    assert body + [Leaf(P_PUBLIC_KEY, p.key)] == [Leaf(P_PUBLIC_KEY, p.key)];
    ok := PutIn(m, buflen, P_PUBLIC_KEY, p.key, base, 0, body);
    OpenKeepsBase(m.bytes, base, 0, if ok then [Leaf(P_PUBLIC_KEY, p.key)] else []);
    if !ok {
      return;
    }
    body := [Leaf(P_PUBLIC_KEY, p.key)];
    if first {
      ok := PutFresh(m, buflen, p, base, body);
      if !ok {
        return;
      }
      body := body + FreshAttrs(p);
      HeadSizes(p);
    }
    ok := PutAwgAndFlags(m, buflen, if first then p else Continuation(p, p.ips), base, body);
    if ok {
      HeadSplits(p, first);
    }
  }

  lemma HeadSplits(p: Peer, first: bool)
    ensures first ==> PeerHead(p) == [Leaf(P_PUBLIC_KEY, p.key)] + FreshAttrs(p) + AwgAndFlags(p)
    ensures !first ==>
      PeerHead(Continuation(p, p.ips)) == [Leaf(P_PUBLIC_KEY, p.key)] + AwgAndFlags(Continuation(p, p.ips))
  {
  }

  lemma HeadSizes(p: Peer)
    ensures HeadSize(p) == LeafSize(|p.key|) + FreshSize(p)
                           + (if p.awg.Some? && p.awg.value then 4 else 0) + (if PeerFlags(p) != 0 then 8 else 0)
  {
  }

  /** What only the first piece of a peer carries. */
  function FreshAttrs(p: Peer): seq<Attr> {
    OptLeaf(P_PRESHARED_KEY, p.psk) + (OptLeaf(P_ENDPOINT, p.endpoint) + OptLeaf(P_KEEPALIVE, p.keepalive))
  }

  function FreshSize(p: Peer): nat {
    (if p.psk.Some? then LeafSize(|p.psk.value|) else 0)
    + (if p.endpoint.Some? then LeafSize(|p.endpoint.value|) else 0)
    + (if p.keepalive.Some? then LeafSize(|p.keepalive.value|) else 0)
  }

  method PutFresh(m: Message, buflen: nat, p: Peer, ghost base: Octets, ghost body: seq<Attr>) returns (ok: bool)
    requires Open(m.bytes, base, 0, body) && |m.bytes| <= buflen && ValidPeer(p)
    modifies m
    ensures ok == (|old(m.bytes)| + FreshSize(p) <= buflen)
    ensures ok ==> |m.bytes| == |old(m.bytes)| + FreshSize(p)
    ensures ok ==> Open(m.bytes, base, 0, body + FreshAttrs(p))
    ensures |base| <= |m.bytes| && m.bytes[..|base|] == base
  {
    hide Open, OptLeaf;
    ghost var b1 := body + OptLeaf(P_PRESHARED_KEY, p.psk);
    ghost var b2 := b1 + OptLeaf(P_ENDPOINT, p.endpoint);
    ok := PutOptIn(m, buflen, P_PRESHARED_KEY, p.psk, base, body);
    OpenKeepsBase(m.bytes, base, 0, if ok then b1 else body);
    if !ok {
      return;
    }
    ok := PutOptIn(m, buflen, P_ENDPOINT, p.endpoint, base, b1);
    OpenKeepsBase(m.bytes, base, 0, if ok then b2 else b1);
    if !ok {
      return;
    }
    ok := PutOptIn(m, buflen, P_KEEPALIVE, p.keepalive, base, b2);
    OpenKeepsBase(m.bytes, base, 0, if ok then b2 + OptLeaf(P_KEEPALIVE, p.keepalive) else b2);
    assert b2 + OptLeaf(P_KEEPALIVE, p.keepalive) == body + FreshAttrs(p);
  }

  function AwgAndFlags(p: Peer): seq<Attr> {
    (if p.awg.Some? && p.awg.value then [Leaf(P_AWG, [])] else [])
    + (if PeerFlags(p) != 0 then [Leaf(P_FLAGS, Le32(PeerFlags(p)))] else [])
  }

  method PutAwgAndFlags(m: Message, buflen: nat, p: Peer, ghost base: Octets, ghost body: seq<Attr>) returns (ok: bool)
    requires Open(m.bytes, base, 0, body) && |m.bytes| <= buflen
    modifies m
    ensures var size := (if p.awg.Some? && p.awg.value then 4 else 0) + (if PeerFlags(p) != 0 then 8 else 0);
            && ok == (|old(m.bytes)| + size <= buflen)
            && (ok ==> |m.bytes| == |old(m.bytes)| + size && Open(m.bytes, base, 0, body + AwgAndFlags(p)))
    ensures |base| <= |m.bytes| && m.bytes[..|base|] == base
  {
    hide Open, Le32;
    ghost var b := body;
    var flags := if p.remove then 1 else 0;
    flags := flags + if p.replace then 2 else 0;
    if p.awg.Some? {
      if p.awg.value {
        var ignored := PutIn(m, buflen, P_AWG, [], base, 0, b);
        b := if ignored then b + [Leaf(P_AWG, [])] else b;
      }
      flags := flags + 8;
    }
    ok := true;
    if flags != 0 {
      ok := PutIn(m, buflen, P_FLAGS, Le32(flags), base, 0, b);
      b := if ok then b + [Leaf(P_FLAGS, Le32(flags))] else b;
    }
    OpenKeepsBase(m.bytes, base, 0, b);
    if ok {
      assert b == body + AwgAndFlags(p);
    }
  }

  // ---- One peer, and all of them ----

  datatype Outcome = NoRoom | Stopped(next: nat) | Finished

  /** The peers loop body.  NoRoom is the jump to toobig_peers, Stopped the jump to
      toobig_allowedips: the peer stays announced and is resumed at `next`. */
  method PutPeer(m: Message, buflen: nat, p: Peer, resume: Option<nat>) returns (r: Outcome, ghost nested: bool)
    requires ValidPeer(p) && (resume.Some? ==> resume.value < |p.ips|)
    modifies m
    ensures r.NoRoom? ==> m.bytes == old(m.bytes)
    ensures r.Stopped? ==> r.next < |p.ips| && (resume.Some? ==> resume.value <= r.next)
    ensures !r.NoRoom? ==> |m.bytes| <= buflen
    ensures !r.NoRoom? ==>
      var q := Piece(p, resume, if r.Stopped? then r.next else |p.ips|);
      m.bytes == old(m.bytes) + EncodeAll([Nest(0, PeerAttrs(q, nested))]) && (nested || q.ips == [])
    ensures |old(m.bytes)| + 172 <= buflen ==> !r.NoRoom? && (resume.Some? && r.Stopped? ==> r.next > resume.value)
  {
    hide Open, EncodeAll, PeerHead, IpNests;
    ghost var base := m.bytes;
    nested := false;
    var ok, start := m.NestStartCheck(buflen, 0);
    if !ok {
      return NoRoom, false;
    }
    ok := PutHead(m, buflen, p, resume.None?, base);
    if !ok {
      m.NestCancel(start, base);
      return NoRoom, false;
    }
    ghost var head := if resume.None? then p else Continuation(p, p.ips);
    if p.ips == [] {
      assert PeerHead(head) == PeerAttrs(Piece(p, resume, 0), false) by { HeadIgnoresIps(head, []); }
      m.NestEnd(start, base, 0, PeerHead(head));
      return Finished, false;
    }
    var k := if resume.Some? then resume.value else 0;
    ghost var inner := m.bytes;
    var room, listStart := m.NestStartCheck(buflen, P_ALLOWEDIPS);
    if !room {
      assert PeerHead(head) == PeerAttrs(Piece(p, resume, k), false) by {
        HeadIgnoresIps(head, Piece(p, resume, k).ips);
      }
      m.NestEnd(start, base, 0, PeerHead(head));
      return Stopped(k), false;
    }
    k := PutIps(m, buflen, p.ips, k, inner);
    ghost var q := Piece(p, resume, k);
    m.NestEnd(listStart, inner, P_ALLOWEDIPS, IpNests(q.ips));
    OpenGrows(inner, base, 0, PeerHead(head), [Nest(P_ALLOWEDIPS, IpNests(q.ips))]);
    assert PeerHead(head) + [Nest(P_ALLOWEDIPS, IpNests(q.ips))] == PeerAttrs(q, true) by {
      HeadIgnoresIps(head, q.ips);
    }
    m.NestEnd(start, base, 0, PeerAttrs(q, true));
    nested := true;
    r := if k < |p.ips| then Stopped(k) else Finished;
  }

  lemma HeadIgnoresIps(p: Peer, ips: seq<Ip>)
    ensures PeerHead(p.(ips := ips)) == PeerHead(p)
  {
  }

  // ---- Attribute types, and why short trees are well formed ----

  predicate SmallTypes(a: Attr)
    decreases a, 1
  {
    a.ty < TYPES && (a.Nest? ==> SmallTypesAll(a.kids))
  }

  predicate SmallTypesAll(s: seq<Attr>)
    decreases s, 0
  {
    s == [] || (SmallTypes(s[0]) && SmallTypesAll(s[1..]))
  }

  lemma {:induction false} ShortIsWellFormed(s: seq<Attr>)
    requires SmallTypesAll(s) && |EncodeAll(s)| < 0x1_0000
    ensures WellFormedAll(s)
    decreases s
  {
    if s != [] {
      if s[0].Nest? {
        ShortIsWellFormed(s[0].kids);
      }
      ShortIsWellFormed(s[1..]);
    }
  }

  lemma {:induction false} SmallTypesConcat(s: seq<Attr>, t: seq<Attr>)
    requires SmallTypesAll(s) && SmallTypesAll(t)
    ensures SmallTypesAll(s + t)
  {
    if s == [] {
      assert s + t == t;
    } else {
      SmallTypesConcat(s[1..], t);
      assert (s + t)[1..] == s[1..] + t;
    }
  }

  lemma SmallLeaf(ty: nat, v: Octets)
    requires ty < TYPES
    ensures SmallTypesAll([Leaf(ty, v)])
  {
    assert [Leaf(ty, v)][1..] == [];
  }

  lemma SmallNest(ty: nat, kids: seq<Attr>)
    requires ty < TYPES && SmallTypesAll(kids)
    ensures SmallTypesAll([Nest(ty, kids)])
  {
    assert [Nest(ty, kids)][1..] == [];
  }

  lemma SmallIp(ip: Ip)
    ensures SmallTypesAll(IpAttrs(ip))
  {
    hide SmallTypesAll, Le16;
    SmallLeaf(I_FAMILY, Le16(ip.family));
    SmallLeaf(I_CIDR, [ip.cidr]);
    var addr := if ip.family == AF_INET || ip.family == AF_INET6 then [Leaf(I_IPADDR, ip.addr)] else [];
    SmallLeaf(I_IPADDR, ip.addr);
    SmallNone();
    SmallTypesConcat([Leaf(I_FAMILY, Le16(ip.family))], addr);
    SmallTypesConcat([Leaf(I_FAMILY, Le16(ip.family))] + addr, [Leaf(I_CIDR, [ip.cidr])]);
  }

  lemma SmallNone()
    ensures SmallTypesAll([])
  {
  }

  lemma {:induction false} SmallIps(ips: seq<Ip>)
    ensures SmallTypesAll(IpNests(ips))
  {
    if ips != [] {
      SmallIp(ips[0]);
      SmallIps(ips[1..]);
      SmallNest(0, IpAttrs(ips[0]));
      SmallTypesConcat([Nest(0, IpAttrs(ips[0]))], IpNests(ips[1..]));
    }
  }

  lemma SmallOpt(ty: nat, v: Option<Octets>)
    requires ty < TYPES
    ensures SmallTypesAll(OptLeaf(ty, v))
  {
    if v.Some? {
      SmallLeaf(ty, v.value);
    }
  }

  lemma SmallPeer(p: Peer, nested: bool)
    ensures SmallTypesAll(PeerAttrs(p, nested))
  {
    hide SmallTypesAll, Le32, OptLeaf, IpNests;
    var s0, s1 := [Leaf(P_PUBLIC_KEY, p.key)], OptLeaf(P_PRESHARED_KEY, p.psk);
    var s2, s3 := OptLeaf(P_ENDPOINT, p.endpoint), OptLeaf(P_KEEPALIVE, p.keepalive);
    var s4 := if p.awg.Some? && p.awg.value then [Leaf(P_AWG, [])] else [];
    var s5 := if PeerFlags(p) != 0 then [Leaf(P_FLAGS, Le32(PeerFlags(p)))] else [];
    var s6 := if nested then [Nest(P_ALLOWEDIPS, IpNests(p.ips))] else [];
    SmallNone();
    SmallLeaf(P_PUBLIC_KEY, p.key);
    SmallOpt(P_PRESHARED_KEY, p.psk);
    SmallOpt(P_ENDPOINT, p.endpoint);
    SmallOpt(P_KEEPALIVE, p.keepalive);
    SmallLeaf(P_AWG, []);
    SmallLeaf(P_FLAGS, Le32(PeerFlags(p)));
    SmallIps(p.ips);
    SmallNest(P_ALLOWEDIPS, IpNests(p.ips));
    SmallTypesConcat(s0, s1);
    SmallTypesConcat(s0 + s1, s2);
    SmallTypesConcat(s0 + s1 + s2, s3);
    SmallTypesConcat(s0 + s1 + s2 + s3, s4);
    SmallTypesConcat(s0 + s1 + s2 + s3 + s4, s5);
    SmallTypesConcat(s0 + s1 + s2 + s3 + s4 + s5, s6);
  }

  // ---- What a run of pieces claims ----

  /** The allowed IPs a list of peers asks for, in order. */
  function Claims(s: seq<Peer>): seq<(Octets, Ip)> {
    if s == [] then [] else Keyed(s[0].key, s[0].ips) + Claims(s[1..])
  }

  function Keyed(key: Octets, ips: seq<Ip>): (r: seq<(Octets, Ip)>)
    ensures |r| == |ips|
  {
    seq(|ips|, i requires 0 <= i < |ips| => (key, ips[i]))
  }

  /** The keys whose allowed IPs a list of peers asks to replace, in order. */
  function Replaced(s: seq<Peer>): seq<Octets> {
    if s == [] then [] else (if s[0].replace then [s[0].key] else []) + Replaced(s[1..])
  }

  lemma {:induction false} ClaimsConcat(s: seq<Peer>, t: seq<Peer>)
    ensures Claims(s + t) == Claims(s) + Claims(t)
  {
    if s == [] {
      assert s + t == t;
    } else {
      ClaimsConcat(s[1..], t);
      assert (s + t)[1..] == s[1..] + t;
      ConcatAssociates(Keyed(s[0].key, s[0].ips), Claims(s[1..]), Claims(t));
    }
  }

  lemma {:induction false} ReplacedConcat(s: seq<Peer>, t: seq<Peer>)
    ensures Replaced(s + t) == Replaced(s) + Replaced(t)
  {
    if s == [] {
      assert s + t == t;
    } else {
      ReplacedConcat(s[1..], t);
      assert (s + t)[0] == s[0] && (s + t)[1..] == s[1..] + t;
      var a, b, c := if s[0].replace then [s[0].key] else [], Replaced(s[1..]), Replaced(t);
      assert a + (b + c) == a + b + c;
    }
  }

  lemma ClaimsOne(p: Peer)
    ensures Claims([p]) == Keyed(p.key, p.ips) && Replaced([p]) == if p.replace then [p.key] else []
  {
    assert [p][1..] == [];
  }

  /** What has been asked for before the cursor. */
  ghost function Claimed(peers: seq<Peer>, c: Cursor): (seq<(Octets, Ip)>, seq<Octets>)
    requires ValidCursor(peers, c)
  {
    var done := peers[..c.peer];
    if c.resume.None? then (Claims(done), Replaced(done))
    else
      var p := peers[c.peer];
      (Claims(done) + Keyed(p.key, p.ips[..c.resume.value]), Replaced(done) + if p.replace then [p.key] else [])
  }

  lemma KeyedSplits(key: Octets, ips: seq<Ip>, j: nat, k: nat)
    requires j <= k <= |ips|
    ensures Keyed(key, ips[..j]) + Keyed(key, ips[j..k]) == Keyed(key, ips[..k])
  {
  }

  lemma PieceClaims(peers: seq<Peer>, c: Cursor, k: nat)
    requires ValidCursor(peers, c) && c.peer < |peers| && k <= |peers[c.peer].ips|
    requires c.resume.Some? ==> c.resume.value <= k
    ensures var q := Piece(peers[c.peer], c.resume, k);
            var before, after := Claimed(peers, c), Claimed(peers, After(peers, c.peer, k));
            after.0 == before.0 + Claims([q]) && after.1 == before.1 + Replaced([q])
  {
    var i, p := c.peer, peers[c.peer];
    ClaimsOne(Piece(p, c.resume, k));
    hide Claims, Replaced;
    hide Keyed;
    if c.resume.Some? {
      KeyedSplits(p.key, p.ips, c.resume.value, k);
    }
    if k == |p.ips| {
      assert p.ips[..k] == p.ips;
      WholePeerClaims(peers, i);
    }
  }

  lemma WholePeerClaims(peers: seq<Peer>, i: nat)
    requires i < |peers|
    ensures Claims(peers[..i + 1]) == Claims(peers[..i]) + Keyed(peers[i].key, peers[i].ips)
    ensures Replaced(peers[..i + 1]) == Replaced(peers[..i]) + if peers[i].replace then [peers[i].key] else []
  {
    hide Claims, Replaced, Keyed;
    assert peers[..i + 1] == peers[..i] + [peers[i]];
    ClaimsConcat(peers[..i], [peers[i]]);
    ReplacedConcat(peers[..i], [peers[i]]);
    ClaimsOne(peers[i]);
  }

  // ---- One message ----

  /** Peers and allowed IPs still to be sent. */
  ghost function Units(peers: seq<Peer>): nat {
    if peers == [] then 0 else 1 + |peers[0].ips| + Units(peers[1..])
  }

  ghost function Work(peers: seq<Peer>, c: Cursor): nat
    requires ValidCursor(peers, c)
  {
    if c.resume.None? then Units(peers[c.peer..])
    else |peers[c.peer].ips| - c.resume.value + Units(peers[c.peer + 1..])
  }

  lemma WorkShrinks(peers: seq<Peer>, c: Cursor, k: nat)
    requires ValidCursor(peers, c) && c.peer < |peers| && k <= |peers[c.peer].ips|
    requires c.resume.Some? ==> c.resume.value <= k
    ensures Work(peers, After(peers, c.peer, k)) <= Work(peers, c)
    ensures c.resume.None? || c.resume.value < k ==> Work(peers, After(peers, c.peer, k)) < Work(peers, c)
  {
    assert peers[c.peer..][1..] == peers[c.peer + 1..];
  }

  lemma {:induction false} ReadPeersConcat(s: seq<Attr>, t: seq<Attr>)
    ensures ReadPeers(s + t) == ReadPeers(s) + ReadPeers(t)
  {
    if s == [] {
      assert s + t == t;
    } else {
      ReadPeersConcat(s[1..], t);
      assert (s + t)[0] == s[0] && (s + t)[1..] == s[1..] + t;
      hide ReadPeer;
      var a := if s[0].Nest? then [ReadPeer(s[0].kids)] else [];
      ConcatAssociates(a, ReadPeers(s[1..]), ReadPeers(t));
    }
  }

  lemma ReadNext(nests: seq<Attr>, q: Peer, nested: bool)
    requires ValidIps(q.ips) && (nested || q.ips == [])
    ensures ReadPeers(nests + [Nest(0, PeerAttrs(q, nested))]) == ReadPeers(nests) + [q]
  {
    hide PeerAttrs, ReadPeer;
    var n := Nest(0, PeerAttrs(q, nested));
    ReadPeersConcat(nests, [n]);
    ReadPeerAttributes(q, nested);
    assert [n][1..] == [];
  }

  /** The state of the device and of the claims after the pieces of a message. */
  ghost predicate Advanced(d: Device, peers: seq<Peer>, from: Cursor, to: Cursor, pieces: seq<Peer>)
    requires ValidCursor(peers, from) && ValidCursor(peers, to)
  {
    && ApplyPeers(Progress(d, peers, from), pieces) == Progress(d, peers, to)
    && Claimed(peers, to).0 == Claimed(peers, from).0 + Claims(pieces)
    && Claimed(peers, to).1 == Claimed(peers, from).1 + Replaced(pieces)
  }

  lemma AdvanceOne(d: Device, peers: seq<Peer>, from: Cursor, c: Cursor, pieces: seq<Peer>, k: nat)
    requires ValidCursor(peers, from) && ValidCursor(peers, c) && Advanced(d, peers, from, c, pieces)
    requires c.peer < |peers| && k <= |peers[c.peer].ips| && (c.resume.Some? ==> c.resume.value <= k)
    ensures Advanced(d, peers, from, After(peers, c.peer, k), pieces + [Piece(peers[c.peer], c.resume, k)])
  {
    hide Progress, Claimed, ApplyPeers, Claims, Replaced, ApplyPeer, Piece;
    var q := Piece(peers[c.peer], c.resume, k);
    var next := After(peers, c.peer, k);
    PieceAdvances(d, peers, c, k);
    ApplyPeersConcat(Progress(d, peers, from), pieces, [q]);
    ApplyOne(Progress(d, peers, c), q);
    PieceClaims(peers, c, k);
    ClaimsConcat(pieces, [q]);
    ReplacedConcat(pieces, [q]);
    ConcatAssociates(Claimed(peers, from).0, Claims(pieces), Claims([q]));
    ConcatAssociates(Claimed(peers, from).1, Replaced(pieces), Replaced([q]));
  }

  lemma ConcatAssociates<T>(a: seq<T>, b: seq<T>, c: seq<T>)
    ensures (a + b) + c == a + (b + c)
  {
  }

  lemma AdvanceNone(d: Device, peers: seq<Peer>, c: Cursor)
    requires ValidCursor(peers, c)
    ensures Advanced(d, peers, c, c, [])
  {
  }

  /** The loop over peers in one message. */
  method FillPeers(m: Message, buflen: nat, peers: seq<Peer>, from: Cursor, ghost base: Octets, ghost d: Device)
    returns (c: Cursor, ghost nests: seq<Attr>, ghost pieces: seq<Peer>)
    requires ValidCursor(peers, from) && forall i :: 0 <= i < |peers| ==> ValidPeer(peers[i])
    requires Open(m.bytes, base, A_PEERS, [])
    modifies m
    ensures ValidCursor(peers, c) && Work(peers, c) <= Work(peers, from)
    ensures Open(m.bytes, base, A_PEERS, nests) && SmallTypesAll(nests) && ReadPeers(nests) == pieces
    ensures Advanced(d, peers, from, c, pieces) && (pieces == [] ==> c == from)
    ensures m.bytes == old(m.bytes) || |m.bytes| <= buflen
    ensures |old(m.bytes)| + 172 <= buflen && from.peer < |peers| ==> Work(peers, c) < Work(peers, from)
  {
    hide Open, EncodeAll, PeerAttrs, SmallTypesAll, ReadPeers, Advanced, Work, Piece;
    c, nests, pieces := from, [], [];
    AdvanceNone(d, peers, from);
    SmallNone();
    assert ReadPeers([]) == [] by { ReadNone(); }
    while c.peer < |peers|
      invariant ValidCursor(peers, c) && Work(peers, c) <= Work(peers, from)
      invariant Open(m.bytes, base, A_PEERS, nests) && SmallTypesAll(nests) && ReadPeers(nests) == pieces
      invariant Advanced(d, peers, from, c, pieces) && (pieces == [] ==> c == from)
      invariant m.bytes == old(m.bytes) || |m.bytes| <= buflen
      invariant (c == from && m.bytes == old(m.bytes)) || Work(peers, c) < Work(peers, from)
      decreases |peers| - c.peer
    {
      var i := c.peer;
      ghost var bytes := m.bytes;
      var r, nested := PutPeer(m, buflen, peers[i], c.resume);
      if r.NoRoom? {
        return;
      }
      var k := if r.Stopped? then r.next else |peers[i].ips|;
      ghost var q := Piece(peers[i], c.resume, k);
      OpenGrows(bytes, base, A_PEERS, nests, [Nest(0, PeerAttrs(q, nested))]);
      PieceIsValid(peers[i], c.resume, k);
      ReadNext(nests, q, nested);
      SmallPeer(q, nested);
      SmallNest(0, PeerAttrs(q, nested));
      SmallTypesConcat(nests, [Nest(0, PeerAttrs(q, nested))]);
      AdvanceOne(d, peers, from, c, pieces, k);
      WorkShrinks(peers, c, k);
      nests, pieces := nests + [Nest(0, PeerAttrs(q, nested))], pieces + [q];
      c := After(peers, i, k);
      if r.Stopped? {
        return;
      }
    }
  }

  lemma ReadNone()
    ensures ReadPeers([]) == []
  {
  }

  lemma PieceIsValid(p: Peer, resume: Option<nat>, k: nat)
    requires ValidPeer(p) && k <= |p.ips| && (resume.Some? ==> resume.value <= k)
    ensures ValidIps(Piece(p, resume, k).ips)
  {
  }

  function SettingAttrs(settings: seq<(nat, Octets)>): seq<Attr> {
    if settings == [] then [] else [Leaf(settings[0].0, settings[0].1)] + SettingAttrs(settings[1..])
  }

  /** The attributes before the peers: the name, and the rest only once. */
  function FrontAttrs(dev: Request, first: bool): seq<Attr> {
    [Leaf(A_IFNAME, dev.name)] + if first then SettingAttrs(dev.settings) + FlagAttrs(dev.replacePeers) else []
  }

  function FlagAttrs(replacePeers: bool): seq<Attr> {
    if replacePeers then [Leaf(A_FLAGS, Le32(1))] else []
  }

  ghost predicate ValidSettings(settings: seq<(nat, Octets)>) {
    forall i :: 0 <= i < |settings| ==>
      settings[i].0 < TYPES && settings[i].0 !in {A_IFNAME, A_FLAGS, A_PEERS} && |settings[i].1| <= 5120
  }

  ghost predicate ValidRequest(dev: Request) {
    && |dev.name| <= 16
    && ValidSettings(dev.settings)
    && forall i :: 0 <= i < |dev.peers| ==> ValidPeer(dev.peers[i])
  }

  /** What the receiver makes of a message. */
  ghost function Meaning(message: Octets): Request
    requires |message| >= PREFIX
  {
    ReadRequest(Parse(message[PREFIX..]), EMPTY_REQUEST)
  }

  lemma {:induction false} ReadRequestConcat(s: seq<Attr>, t: seq<Attr>, r: Request)
    ensures ReadRequest(s + t, r) == ReadRequest(t, ReadRequest(s, r))
    decreases s
  {
    if s == [] {
      assert s + t == t;
    } else {
      ReadRequestConcat(s[1..], t, ReadRequestAttr(s[0], r));
      assert (s + t)[1..] == s[1..] + t;
    }
  }

  lemma {:induction false} ReadSettings(settings: seq<(nat, Octets)>, r: Request)
    requires ValidSettings(settings)
    ensures ReadRequest(SettingAttrs(settings), r) == r.(settings := r.settings + settings)
    decreases settings
  {
    if settings == [] {
      assert r.settings + settings == r.settings;
    } else {
      var next := r.(settings := r.settings + [settings[0]]);
      var a := Leaf(settings[0].0, settings[0].1);
      assert ReadRequestAttr(a, r) == next;
      ReadSettings(settings[1..], next);
      hide ReadRequestAttr;
      assert SettingAttrs(settings) == [a] + SettingAttrs(settings[1..]);
      assert SettingAttrs(settings)[1..] == SettingAttrs(settings[1..]);
      assert next.settings + settings[1..] == r.settings + settings;
    }
  }

  lemma ReadLeafOne(ty: nat, v: Octets, r: Request)
    ensures ty == A_IFNAME ==> ReadRequest([Leaf(ty, v)], r) == r.(name := v)
    ensures ty == A_FLAGS && |v| == 4 ==> ReadRequest([Leaf(ty, v)], r) == r.(replacePeers := v[0] % 2 == 1)
  {
    assert [Leaf(ty, v)][1..] == [];
  }

  lemma ReadNestOne(nests: seq<Attr>, r: Request)
    ensures ReadRequest([Nest(A_PEERS, nests)], r) == r.(peers := r.peers + ReadPeers(nests))
  {
    assert [Nest(A_PEERS, nests)][1..] == [];
  }

  lemma ReadFront(dev: Request, first: bool)
    requires ValidSettings(dev.settings)
    ensures ReadRequest(FrontAttrs(dev, first), EMPTY_REQUEST) ==
            Request(dev.name, if first then dev.settings else [], first && dev.replacePeers, [])
  {
    hide ReadRequest, SettingAttrs;
    var head, rest := [Leaf(A_IFNAME, dev.name)], SettingAttrs(dev.settings);
    var r := EMPTY_REQUEST.(name := dev.name);
    ReadLeafOne(A_IFNAME, dev.name, EMPTY_REQUEST);
    if first {
      ReadRequestConcat(head, rest + FlagAttrs(dev.replacePeers), EMPTY_REQUEST);
      ReadRequestConcat(rest, FlagAttrs(dev.replacePeers), r);
      ReadSettings(dev.settings, r);
      assert r.settings + dev.settings == dev.settings;
      ReadLeafOne(A_FLAGS, Le32(1), r.(settings := dev.settings));
      ReadEmpty(r.(settings := dev.settings));
    } else {
      assert FrontAttrs(dev, first) == head;
    }
  }

  lemma ReadEmpty(r: Request)
    ensures ReadRequest([], r) == r
  {
  }

  lemma {:induction false} SettingsWellFormed(settings: seq<(nat, Octets)>)
    requires ValidSettings(settings)
    ensures WellFormedAll(SettingAttrs(settings))
  {
    if settings != [] {
      SettingsWellFormed(settings[1..]);
      assert SettingAttrs(settings)[1..] == SettingAttrs(settings[1..]);
    }
  }

  lemma LeafWellFormed(ty: nat, v: Octets)
    requires ty < TYPES && |v| < 0xf000
    ensures WellFormedAll([Leaf(ty, v)])
  {
    assert WellFormed(Leaf(ty, v));
    assert [Leaf(ty, v)][1..] == [];
  }

  lemma FrontWellFormed(dev: Request, first: bool)
    requires ValidRequest(dev)
    ensures WellFormedAll(FrontAttrs(dev, first))
  {
    hide WellFormedAll, SettingAttrs, ValidSettings;
    LeafWellFormed(A_IFNAME, dev.name);
    LeafWellFormed(A_FLAGS, Le32(1));
    SettingsWellFormed(dev.settings);
    var head, rest, flags := [Leaf(A_IFNAME, dev.name)], SettingAttrs(dev.settings), FlagAttrs(dev.replacePeers);
    WellFormedNone();
    WellFormedConcat(rest, flags);
    WellFormedConcat(head, if first then rest + flags else []);
  }

  lemma WellFormedNone()
    ensures WellFormedAll([])
  {
  }

  lemma NestWellFormed(nests: seq<Attr>)
    requires SmallTypesAll(nests) && HDRLEN + |EncodeAll(nests)| < 0x1_0000
    ensures WellFormedAll([Nest(A_PEERS, nests)])
  {
    hide SmallTypesAll, EncodeAll;
    ShortIsWellFormed(nests);
    WellFormedOne(Nest(A_PEERS, nests));
  }

  lemma WellFormedOne(a: Attr)
    ensures WellFormedAll([a]) <==> WellFormed(a)
  {
    hide WellFormed;
    assert [a][1..] == [];
  }

  /** A finished message means its front and its pieces. */
  lemma MessageMeaning(dev: Request, first: bool, header: Octets, message: Octets, nests: seq<Attr>, hasPeers: bool)
    requires ValidRequest(dev) && |header| == PREFIX && SmallTypesAll(nests)
    requires HDRLEN + |EncodeAll(nests)| < 0x1_0000 && (hasPeers || nests == [])
    requires message == header + EncodeAll(FrontAttrs(dev, first))
             + if hasPeers then EncodeAll([Nest(A_PEERS, nests)]) else []
    ensures |message| >= PREFIX
    ensures Meaning(message)
        == Request(dev.name, if first then dev.settings else [], first && dev.replacePeers, ReadPeers(nests))
  {
    hide EncodeAll, WellFormedAll, Parse, ReadRequest, SmallTypesAll, ReadPeers, FrontAttrs;
    var front, tail := FrontAttrs(dev, first), if hasPeers then [Nest(A_PEERS, nests)] else [];
    EncodeConcat(front, tail);
    assert EncodeAll([]) == [] by { EncodeNone(); }
    assert message[PREFIX..] == EncodeAll(front + tail);
    FrontWellFormed(dev, first);
    NestWellFormed(nests);
    WellFormedNone();
    WellFormedConcat(front, tail);
    ParseEncode(front + tail);
    ReadFront(dev, first);
    var r := Request(dev.name, if first then dev.settings else [], first && dev.replacePeers, []);
    ReadRequestConcat(front, tail, EMPTY_REQUEST);
    ReadNestOne(nests, r);
    ReadEmpty(r);
    assert r.peers + ReadPeers(nests) == ReadPeers(nests);
    assert ReadPeers([]) == [] by { ReadNone(); }
  }

  lemma EncodeNone()
    ensures EncodeAll([]) == []
  {
  }

  /** The size of a message before any peer is in it. */
  ghost function FrontSize(dev: Request, first: bool): nat {
    PREFIX + |EncodeAll(FrontAttrs(dev, first))| + if dev.peers == [] then 0 else HDRLEN
  }

  /** The sum of the settings' own sizes. */
  function SettingsSize(settings: seq<(nat, Octets)>): nat {
    if settings == [] then 0 else LeafSize(|settings[0].1|) + SettingsSize(settings[1..])
  }

  lemma {:induction false} SettingsEncode(settings: seq<(nat, Octets)>)
    ensures |EncodeAll(SettingAttrs(settings))| == SettingsSize(settings)
  {
    hide Encode;
    if settings != [] {
      var a := Leaf(settings[0].0, settings[0].1);
      SettingsEncode(settings[1..]);
      LeafLength(a.ty, a.payload);
      assert SettingAttrs(settings)[0] == a && SettingAttrs(settings)[1..] == SettingAttrs(settings[1..]);
    }
  }

  /** What must fit the buffer for message one not to overrun it: the headers, the
      name, every setting, the flags and the header of the peers. */
  lemma FrontSizeSum(dev: Request)
    ensures FrontSize(dev, true)
            == PREFIX + LeafSize(|dev.name|) + SettingsSize(dev.settings)
               + (if dev.replacePeers then 8 else 0) + (if dev.peers == [] then 0 else HDRLEN)
  {
    hide EncodeAll, Encode, SettingAttrs, SettingsSize;
    var head, rest, flags := [Leaf(A_IFNAME, dev.name)], SettingAttrs(dev.settings), FlagAttrs(dev.replacePeers);
    EncodeConcat(head, rest + flags);
    EncodeConcat(rest, flags);
    EncodeOne(Leaf(A_IFNAME, dev.name));
    LeafLength(A_IFNAME, dev.name);
    SettingsEncode(dev.settings);
    EncodeOne(Leaf(A_FLAGS, Le32(1)));
    LeafLength(A_FLAGS, Le32(1));
    EncodeNone();
  }

  /** Message one can overrun every buffer: two I strings of the greatest length
      the configuration reader lets through, each with its NUL, already do. */
  lemma FrontCanOverrun(name: Octets, text: Octets)
    requires |name| <= 16 && |text| == 5120
    ensures var dev := Request(name, [(A_I1, text), (A_I2, text)], false, []);
            ValidRequest(dev) && FrontSize(dev, true) > 8192
  {
    var settings: seq<(nat, Octets)> := [(A_I1, text), (A_I2, text)];
    FrontSizeSum(Request(name, settings, false, []));
    assert settings[1..] == [(A_I2, text)] && settings[1..][1..] == [];
    assert SettingsSize(settings[1..]) == LeafSize(5120) + SettingsSize([]);
  }

  lemma LaterFrontSize(dev: Request)
    requires |dev.name| <= 16
    ensures FrontSize(dev, false) <= 44
  {
    assert FrontAttrs(dev, false) == [Leaf(A_IFNAME, dev.name)];
    EncodeOne(Leaf(A_IFNAME, dev.name));
    LeafLength(A_IFNAME, dev.name);
  }

  /** The attributes of message one that are put without a size check. */
  method PutFront(m: Message, dev: Request, first: bool)
    requires m.bytes != [] && |dev.name| <= 16 && ValidSettings(dev.settings)
    modifies m
    ensures m.bytes == old(m.bytes) + EncodeAll(FrontAttrs(dev, first))
  {
    hide EncodeAll, Placed;
    m.Put(A_IFNAME, dev.name);
    if !first {
      assert FrontAttrs(dev, first) == [Leaf(A_IFNAME, dev.name)];
      return;
    }
    ghost var base, head := old(m.bytes), [Leaf(A_IFNAME, dev.name)];
    assert head + SettingAttrs(dev.settings[..0]) == head;
    for i := 0 to |dev.settings|
      invariant m.bytes == base + EncodeAll(head + SettingAttrs(dev.settings[..i]))
    {
      m.Put(dev.settings[i].0, dev.settings[i].1);
      var s := [Leaf(dev.settings[i].0, dev.settings[i].1)];
      EncodeConcat(head + SettingAttrs(dev.settings[..i]), s);
      SettingsNext(dev.settings, i);
      assert head + SettingAttrs(dev.settings[..i]) + s == head + SettingAttrs(dev.settings[..i + 1]);
    }
    assert dev.settings[..|dev.settings|] == dev.settings;
    ghost var so := head + SettingAttrs(dev.settings);
    if dev.replacePeers {
      m.Put(A_FLAGS, Le32(1));
      EncodeConcat(so, [Leaf(A_FLAGS, Le32(1))]);
    }
    assert FrontAttrs(dev, first) == so + FlagAttrs(dev.replacePeers);
    assert !dev.replacePeers ==> so + FlagAttrs(dev.replacePeers) == so;
  }

  lemma {:induction false} SettingsNext(s: seq<(nat, Octets)>, i: nat)
    requires i < |s|
    ensures SettingAttrs(s[..i + 1]) == SettingAttrs(s[..i]) + [Leaf(s[i].0, s[i].1)]
  {
    if i > 0 {
      SettingsNext(s[1..], i - 1);
      assert s[..i + 1][1..] == s[1..][..i] && s[..i][1..] == s[1..][..i - 1];
    } else {
      assert s[..1][1..] == [] && s[..0] == [];
    }
  }

  /** struct mnlg_socket: the number of the family and its version. */
  datatype Socket = Socket(id: nat, version: uint8)

  /** The first twenty octets of a message: its length, the family, NLM_F_REQUEST
      and NLM_F_ACK, the time as sequence number, no port, and WG_CMD_SET_DEVICE. */
  ghost predicate Headed(message: Octets, socket: Socket, time: nat) {
    && |message| >= PREFIX
    && message[..PREFIX] == Le32(|message|) + Le16(socket.id) + [5, 0] + Le32(time) + [0, 0, 0, 0]
                            + [1, socket.version, 0, 0]
  }

  const NLM_F_REQUEST: nat := 1
  const NLM_F_ACK: nat := 4
  const WG_CMD_SET_DEVICE: uint8 := 1

  /** mnlg_msg_prepare, without the length. */
  method Prepare(socket: Socket, cmd: uint8, flags: nat, time: nat) returns (header: Octets)
    ensures |header| == PREFIX
    ensures header[4..] == Le16(socket.id) + Le16(flags) + Le32(time) + [0, 0, 0, 0] + [cmd, socket.version, 0, 0]
  {
    var nlh := Le32(PREFIX) + (Le16(socket.id) + Le16(flags) + Le32(time) + [0, 0, 0, 0]);
    var genl := [cmd, socket.version, 0, 0];
    header := nlh + genl;
    assert nlh[4..] == Le16(socket.id) + Le16(flags) + Le32(time) + [0, 0, 0, 0];
    assert header[4..] == nlh[4..] + genl;
  }

  /** The length field is kept up to date while a message grows; here it is written
      at the end. */
  method SetLength(bytes: Octets, ghost header: Octets, socket: Socket, time: nat) returns (message: Octets)
    requires |header| == PREFIX <= |bytes| && bytes[..PREFIX] == header
    requires header[4..] == Le16(socket.id) + [5, 0] + Le32(time) + [0, 0, 0, 0] + [1, socket.version, 0, 0]
    ensures Headed(message, socket, time) && |message| == |bytes| && message[PREFIX..] == bytes[PREFIX..]
  {
    hide Le32, Le16;
    message := Le32(|bytes|) + bytes[4..];
    assert bytes[4..][..16] == header[4..];
    assert message[..PREFIX] == Le32(|bytes|) + header[4..];
    assert Le32(|bytes|) + (Le16(socket.id) + [5, 0] + Le32(time) + [0, 0, 0, 0] + [1, socket.version, 0, 0])
        == Le32(|bytes|) + Le16(socket.id) + [5, 0] + Le32(time) + [0, 0, 0, 0] + [1, socket.version, 0, 0];
    assert message[PREFIX..] == bytes[PREFIX..];
  }

  /** From the label `again` to the label `send`. */
  method BuildMessage(dev: Request, socket: Socket, time: nat, buflen: nat, from: Cursor, first: bool, ghost d: Device)
    returns (message: Octets, c: Cursor)
    requires ValidRequest(dev) && 4096 <= buflen <= 8192
    requires ValidCursor(dev.peers, from)
    ensures ValidCursor(dev.peers, c) && |message| >= PREFIX && Headed(message, socket, time)
    ensures var r := Meaning(message);
            && r == Request(dev.name, if first then dev.settings else [], first && dev.replacePeers, r.peers)
            && Advanced(d, dev.peers, from, c, r.peers) && (r.peers == [] ==> c == from)
    ensures Work(dev.peers, c) <= Work(dev.peers, from)
    ensures !first && from.peer < |dev.peers| ==> Work(dev.peers, c) < Work(dev.peers, from)
    ensures |message| == FrontSize(dev, first) || FrontSize(dev, first) < |message| <= buflen
    ensures |message| % 4 == 0
  {
    EncodeAllAligned(FrontAttrs(dev, first));
    hide EncodeAll, FrontAttrs, SmallTypesAll, ReadPeers, Advanced, Meaning, Work, Headed, Le32, Le16;
    var header := Prepare(socket, WG_CMD_SET_DEVICE, NLM_F_REQUEST + NLM_F_ACK, time);
    assert Le16(5) == [5, 0] by { FlagField(); }
    var m := new Message(header);
    PutFront(m, dev, first);
    if dev.peers == [] {
      c := from;
      AdvanceNone(d, dev.peers, from);
      SmallNone();
      assert EncodeAll([]) == [] by { EncodeNone(); }
      assert ReadPeers([]) == [] by { ReadNone(); }
      message := Send(m.bytes, header, socket, time, dev, first, [], false);
      return;
    }
    LaterFrontSize(dev);
    ghost var nests;
    c, nests := PutPeers(m, buflen, dev.peers, from, d);
    message := Send(m.bytes, header, socket, time, dev, first, nests, true);
  }

  /** The nest of peers, as far as the buffer goes. */
  method PutPeers(m: Message, buflen: nat, peers: seq<Peer>, from: Cursor, ghost d: Device)
    returns (c: Cursor, ghost nests: seq<Attr>)
    requires ValidCursor(peers, from) && (forall i :: 0 <= i < |peers| ==> ValidPeer(peers[i])) && buflen <= 8192
    modifies m
    ensures ValidCursor(peers, c) && Work(peers, c) <= Work(peers, from) && SmallTypesAll(nests)
    ensures m.bytes == old(m.bytes) + EncodeAll([Nest(A_PEERS, nests)])
    ensures |m.bytes| == |old(m.bytes)| + HDRLEN + |EncodeAll(nests)| && |EncodeAll(nests)| % 4 == 0
    ensures Advanced(d, peers, from, c, ReadPeers(nests)) && (ReadPeers(nests) == [] ==> c == from)
    ensures EncodeAll(nests) == [] || |m.bytes| <= buflen
    ensures |old(m.bytes)| + HDRLEN + 172 <= buflen && from.peer < |peers| ==> Work(peers, c) < Work(peers, from)
  {
    hide Open, EncodeAll, SmallTypesAll, ReadPeers, Advanced, Work;
    ghost var base := m.bytes;
    var start := m.NestStart(A_PEERS);
    ghost var pieces;
    c, nests, pieces := FillPeers(m, buflen, peers, from, base, d);
    OpenSize(m.bytes, base, A_PEERS, nests);
    EncodeAllAligned(nests);
    m.NestEnd(start, base, A_PEERS, nests);
  }

  lemma FlagField()
    ensures Le16(5) == [5, 0]
  {
  }

  /** What is sent of a finished buffer, with its meaning. */
  method Send(bytes: Octets, ghost header: Octets, socket: Socket, time: nat,
              ghost dev: Request, ghost first: bool, ghost nests: seq<Attr>, ghost hasPeers: bool)
    returns (message: Octets)
    requires ValidRequest(dev) && |header| == PREFIX && SmallTypesAll(nests)
    requires HDRLEN + |EncodeAll(nests)| < 0x1_0000 && (hasPeers || nests == [])
    requires header[4..] == Le16(socket.id) + [5, 0] + Le32(time) + [0, 0, 0, 0] + [1, socket.version, 0, 0]
    requires bytes == header + EncodeAll(FrontAttrs(dev, first))
             + if hasPeers then EncodeAll([Nest(A_PEERS, nests)]) else []
    ensures |message| >= PREFIX && Headed(message, socket, time) && |message| == |bytes|
    ensures Meaning(message)
        == Request(dev.name, if first then dev.settings else [], first && dev.replacePeers, ReadPeers(nests))
  {
    hide EncodeAll, FrontAttrs, SmallTypesAll, ReadPeers, Meaning, Headed, Le32, Le16;
    message := SetLength(bytes, header, socket, time);
    ghost var rest := EncodeAll(FrontAttrs(dev, first)) + if hasPeers then EncodeAll([Nest(A_PEERS, nests)]) else [];
    assert bytes == header + rest && bytes[PREFIX..] == rest;
    ghost var head := message[..PREFIX];
    assert message == head + rest;
    MessageMeaning(dev, first, head, message, nests, hasPeers);
  }

  lemma OpenSize(bytes: Octets, base: Octets, ty: nat, body: seq<Attr>)
    requires Open(bytes, base, ty, body)
    ensures |bytes| == |base| + HDRLEN + |EncodeAll(body)|
  {
  }

  // ---- The whole run ----

  /** All pieces the receiver has been given, in order. */
  ghost function Pieces(sent: seq<Octets>): seq<Peer>
    requires forall i :: 0 <= i < |sent| ==> |sent[i]| >= PREFIX
  {
    if sent == [] then [] else Pieces(sent[..|sent| - 1]) + Meaning(sent[|sent| - 1]).peers
  }

  lemma {:induction false} ReceiveNext(d: Device, sent: seq<Octets>, message: Octets)
    requires forall i :: 0 <= i < |sent| ==> |sent[i]| >= PREFIX
    requires |message| >= PREFIX
    ensures ReceiveAll(d, sent + [message]) == Receive(ReceiveAll(d, sent), message)
    decreases sent
  {
    hide Receive;
    if sent == [] {
      assert ([message])[1..] == [];
      assert sent + [message] == [message];
    } else {
      ReceiveNext(Receive(d, sent[0]), sent[1..], message);
      assert (sent + [message])[1..] == sent[1..] + [message];
    }
  }

  lemma {:induction false} ApplyPeersKeepsName(d: Device, s: seq<Peer>)
    ensures ApplyPeers(d, s).name == d.name
    decreases s
  {
    if s != [] {
      ApplyPeersKeepsName(ApplyPeer(d, s[0]), s[1..]);
    }
  }

  lemma {:induction false} ApplySettingsKeepsName(d: Device, s: seq<(nat, Octets)>)
    ensures ApplySettings(d, s).name == d.name
    decreases s
  {
    if s != [] {
      ApplySettingsKeepsName(d.(settings := d.settings[s[0].0 := s[0].1]), s[1..]);
    }
  }

  /** The device after the part of the request that is not about single peers. */
  ghost function Based(d: Device, dev: Request): Device {
    var e := ApplySettings(d, dev.settings);
    if dev.replacePeers then e.(peers := map[], routes := map[]) else e
  }

  lemma BasedKeepsName(d: Device, dev: Request)
    ensures Based(d, dev).name == d.name
  {
    ApplySettingsKeepsName(d, dev.settings);
  }

  lemma ProgressKeepsName(d: Device, peers: seq<Peer>, c: Cursor)
    requires ValidCursor(peers, c)
    ensures Progress(d, peers, c).name == d.name
  {
    ApplyPeersKeepsName(d, peers[..c.peer]);
  }

  lemma LaterMessage(e: Device, dev: Request, r: Request)
    requires e.name == dev.name && r == Request(dev.name, [], false, r.peers)
    ensures Apply(e, r) == ApplyPeers(e, r.peers)
  {
    assert ApplySettings(e, []) == e;
  }

  /** Every message in a run is within the buffer exactly if message one is, and
      the receiver ends up as if the whole request had come in one message. */
  method SetDevice(dev: Request, socket: Socket, clock: nat -> nat, buflen: nat, reply: nat -> bool, ghost d: Device)
    returns (ok: bool, sent: seq<Octets>)
    requires ValidRequest(dev) && 4096 <= buflen <= 8192
    requires d.name == dev.name
    ensures forall i :: 0 <= i < |sent| ==> |sent[i]| >= PREFIX && |sent[i]| % 4 == 0
    ensures forall i :: 0 <= i < |sent| ==> Headed(sent[i], socket, clock(i))
    ensures ok ==> ReceiveAll(d, sent) == Apply(d, dev)
    ensures ok ==> Claims(Pieces(sent)) == Claims(dev.peers) && Replaced(Pieces(sent)) == Replaced(dev.peers)
    ensures |sent| > 0 && Meaning(sent[0]) == dev.(peers := Meaning(sent[0]).peers)
    ensures forall i :: 0 < i < |sent| ==> Meaning(sent[i]) == Request(dev.name, [], false, Meaning(sent[i]).peers)
    ensures (forall i :: 0 <= i < |sent| ==> |sent[i]| <= buflen) <==> FrontSize(dev, true) <= buflen
    ensures forall i :: 0 < i < |sent| ==> Meaning(sent[i]).peers != []
    ensures ok <==> forall i :: 0 <= i < |sent| ==> reply(i)
    ensures forall i :: 0 <= i < |sent| - 1 ==> reply(i)
  {
    hide Meaning, Advanced, Progress, Claimed, Pieces, ReceiveAll, FrontSize, Work, Based, ApplyPeers, Claims, Replaced,
         Headed;
    var c := Cursor(0, None);
    ghost var e := Based(d, dev);
    BasedKeepsName(d, dev);
    LaterFrontSize(dev);
    var message;
    message, c := BuildMessage(dev, socket, clock(0), buflen, c, true, e);
    sent := [message];
    StartRun(d, dev, message, c);
    ok := reply(0);
    while ok && c.peer < |dev.peers|
      invariant ValidCursor(dev.peers, c)
      invariant |sent| > 0 && forall i :: 0 <= i < |sent| ==> |sent[i]| >= PREFIX && |sent[i]| % 4 == 0
      invariant forall i :: 0 <= i < |sent| ==> Headed(sent[i], socket, clock(i))
      invariant sent[0] == message && forall i :: 0 < i < |sent| ==> |sent[i]| <= buflen
      invariant forall i :: 0 < i < |sent| ==> Meaning(sent[i]) == Request(dev.name, [], false, Meaning(sent[i]).peers)
      invariant ReceiveAll(d, sent) == Progress(e, dev.peers, c)
      invariant Claims(Pieces(sent)) == Claimed(dev.peers, c).0 && Replaced(Pieces(sent)) == Claimed(dev.peers, c).1
      invariant forall i :: 0 < i < |sent| ==> Meaning(sent[i]).peers != []
      invariant ok <==> forall i :: 0 <= i < |sent| ==> reply(i)
      invariant forall i :: 0 <= i < |sent| - 1 ==> reply(i)
      decreases Work(dev.peers, c), ok
    {
      var before := c;
      var more;
      more, c := BuildMessage(dev, socket, clock(|sent|), buflen, before, false, e);
      ContinueRun(d, e, dev, sent, before, more, c);
      sent := sent + [more];
      ok := reply(|sent| - 1);
    }
    if ok {
      EndRun(d, dev, c);
    }
  }

  lemma StartRun(d: Device, dev: Request, message: Octets, c: Cursor)
    requires d.name == dev.name && |message| >= PREFIX && ValidCursor(dev.peers, c)
    requires var r := Meaning(message); r == dev.(peers := r.peers)
    requires Advanced(Based(d, dev), dev.peers, Cursor(0, None), c, Meaning(message).peers)
    ensures ReceiveAll(d, [message]) == Progress(Based(d, dev), dev.peers, c)
    ensures Claims(Pieces([message])) == Claimed(dev.peers, c).0
    ensures Replaced(Pieces([message])) == Claimed(dev.peers, c).1
  {
    hide Claims, Replaced, Meaning, Progress, Claimed, Apply, Receive, ReceiveAll, Pieces, Based;
    var start := Cursor(0, None);
    var pieces := Meaning(message).peers;
    SinglePieces(message);
    NothingClaimed(dev.peers);
    assert [] + Claims(pieces) == Claims(pieces) && [] + Replaced(pieces) == Replaced(pieces);
    assert ReceiveAll(d, [message]) == Receive(d, message) by { SingleReceive(d, message); }
    MeaningOfReceive(d, message);
    FirstMessage(d, dev, pieces);
  }

  lemma SinglePieces(message: Octets)
    requires |message| >= PREFIX
    ensures Pieces([message]) == Meaning(message).peers
  {
    hide Meaning;
    assert [message][..0] == [];
    assert Pieces([]) + Meaning(message).peers == Meaning(message).peers;
  }

  lemma SingleReceive(d: Device, message: Octets)
    requires |message| >= PREFIX
    ensures ReceiveAll(d, [message]) == Receive(d, message)
  {
    hide Receive;
    assert [message][1..] == [];
  }

  lemma NothingClaimed(peers: seq<Peer>)
    ensures Claimed(peers, Cursor(0, None)) == ([], [])
  {
    assert peers[..0] == [];
  }

  lemma FirstMessage(d: Device, dev: Request, pieces: seq<Peer>)
    requires d.name == dev.name
    ensures Apply(d, dev.(peers := pieces)) == ApplyPeers(Progress(Based(d, dev), dev.peers, Cursor(0, None)), pieces)
  {
    assert dev.peers[..0] == [];
    assert ApplyPeers(Based(d, dev), []) == Based(d, dev);
  }

  lemma MeaningOfReceive(d: Device, message: Octets)
    requires |message| >= PREFIX
    ensures Receive(d, message) == Apply(d, Meaning(message))
  {
  }

  lemma ContinueRun(d: Device, e: Device, dev: Request, sent: seq<Octets>, before: Cursor, message: Octets, c: Cursor)
    requires e.name == dev.name && |message| >= PREFIX && forall i :: 0 <= i < |sent| ==> |sent[i]| >= PREFIX
    requires ValidCursor(dev.peers, before) && ValidCursor(dev.peers, c)
    requires ReceiveAll(d, sent) == Progress(e, dev.peers, before)
    requires Claims(Pieces(sent)) == Claimed(dev.peers, before).0
    requires Replaced(Pieces(sent)) == Claimed(dev.peers, before).1
    requires var r := Meaning(message); r == Request(dev.name, [], false, r.peers)
    requires Advanced(e, dev.peers, before, c, Meaning(message).peers)
    ensures ReceiveAll(d, sent + [message]) == Progress(e, dev.peers, c)
    ensures Claims(Pieces(sent + [message])) == Claimed(dev.peers, c).0
    ensures Replaced(Pieces(sent + [message])) == Claimed(dev.peers, c).1
  {
    hide Claims, Replaced, Progress, Claimed, Meaning, Receive, ApplyPeers, Apply;
    var r := Meaning(message);
    ReceiveNext(d, sent, message);
    MeaningOfReceive(ReceiveAll(d, sent), message);
    ProgressKeepsName(e, dev.peers, before);
    LaterMessage(Progress(e, dev.peers, before), dev, r);
    assert (sent + [message])[..|sent|] == sent;
    ClaimsConcat(Pieces(sent), r.peers);
    ReplacedConcat(Pieces(sent), r.peers);
  }

  lemma EndRun(d: Device, dev: Request, c: Cursor)
    requires d.name == dev.name && c == Cursor(|dev.peers|, None)
    ensures Progress(Based(d, dev), dev.peers, c) == Apply(d, dev)
    ensures Claimed(dev.peers, c) == (Claims(dev.peers), Replaced(dev.peers))
  {
    assert dev.peers[..|dev.peers|] == dev.peers;
  }
}
