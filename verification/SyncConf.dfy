/** syncconf (setconf.c): which runtime peers to remove so that the device ends
    with the peers of the file. */
module SyncConf {
  import opened Options
  import opened Netlink
  import opened KernelDevice
  import opened SetDevice

  /** struct pubkey_origin */
  datatype Origin = Origin(key: Octets, fromFile: bool)

  /** memcmp on keys of one length. */
  function Memcmp(a: Octets, b: Octets): int
    requires |a| == |b|
  {
    if a == [] then 0
    else if a[0] != b[0] then a[0] as int - b[0] as int
    else Memcmp(a[1..], b[1..])
  }

  /** pubkey_cmp: by key, and runtime before file for the same key. */
  function PubkeyCmp(a: Origin, b: Origin): int
    requires |a.key| == |b.key|
  {
    var r := Memcmp(a.key, b.key);
    if r != 0 then r else (if a.fromFile then 1 else 0) - (if b.fromFile then 1 else 0)
  }

  lemma {:induction false} MemcmpAntisymmetric(a: Octets, b: Octets)
    requires |a| == |b| && Memcmp(a, b) <= 0 && Memcmp(b, a) <= 0
    ensures a == b
  {
    if a != [] {
      MemcmpAntisymmetric(a[1..], b[1..]);
      assert a == [a[0]] + a[1..] && b == [b[0]] + b[1..];
    }
  }

  /** The sign is that of the first difference. */
  lemma {:induction false} MemcmpSign(a: Octets, b: Octets, i: nat)
    requires |a| == |b| && i < |a| && a[..i] == b[..i] && a[i] != b[i]
    ensures Memcmp(a, b) < 0 <==> a[i] < b[i]
    ensures Memcmp(a, b) != 0
  {
    if i > 0 {
      assert a[0] == a[..i][0] && b[0] == b[..i][0];
      assert a[1..][..i - 1] == a[..i][1..] && b[1..][..i - 1] == b[..i][1..];
      MemcmpSign(a[1..], b[1..], i - 1);
    }
  }

  lemma {:induction false} MemcmpSelf(a: Octets)
    ensures Memcmp(a, a) == 0
  {
    if a != [] {
      MemcmpSelf(a[1..]);
    }
  }

  /** An origin between a runtime and a file origin of one key has that key. */
  lemma Between(a: Origin, b: Origin, c: Origin)
    requires |a.key| == |b.key| && a.key == c.key
    requires PubkeyCmp(a, b) <= 0 && PubkeyCmp(b, c) <= 0
    ensures b.key == a.key
    ensures !c.fromFile ==> !b.fromFile
  {
    MemcmpAntisymmetric(a.key, b.key);
    MemcmpSelf(a.key);
  }

  ghost predicate Sorted(s: seq<Origin>) {
    && (forall i, k :: 0 <= i < |s| && 0 <= k < |s| ==> |s[i].key| == |s[k].key|)
    && forall i, k :: 0 <= i < k < |s| ==> |s[i].key| == |s[k].key| && PubkeyCmp(s[i], s[k]) <= 0
  }

  function Origins(keys: seq<Octets>, fromFile: bool): (r: seq<Origin>)
    ensures |r| == |keys| && forall i :: 0 <= i < |keys| ==> r[i] == Origin(keys[i], fromFile)
  {
    seq(|keys|, i requires 0 <= i < |keys| => Origin(keys[i], fromFile))
  }

  /** The scan after qsort: the keys to remove, latest first as they are prepended. */
  method Scan(sorted: seq<Origin>) returns (remove: seq<Octets>)
    requires Sorted(sorted)
    ensures forall key :: key in remove <==> exists i :: 0 <= i < |sorted| && Flagged(sorted, i) && sorted[i].key == key
  {
    remove := [];
    for i := 0 to |sorted|
      invariant forall key :: key in remove <==> exists k :: 0 <= k < i && Flagged(sorted, k) && sorted[k].key == key
    {
      if !sorted[i].fromFile {
        if i == |sorted| - 1 || !sorted[i + 1].fromFile || sorted[i].key != sorted[i + 1].key {
          remove := [sorted[i].key] + remove;
        }
      }
    }
  }

  ghost predicate Flagged(s: seq<Origin>, i: int)
    requires 0 <= i < |s|
  {
    !s[i].fromFile && (i == |s| - 1 || !s[i + 1].fromFile || s[i].key != s[i + 1].key)
  }

  /** qsort sorts by pubkey_cmp and permutes. */
  ghost predicate Qsorted(file: seq<Octets>, runtime: seq<Octets>, sorted: seq<Origin>) {
    Sorted(sorted) && multiset(sorted) == multiset(Origins(file, true) + Origins(runtime, false))
  }

  lemma SameMembers(file: seq<Octets>, runtime: seq<Octets>, sorted: seq<Origin>)
    requires Qsorted(file, runtime, sorted)
    ensures forall k :: Origin(k, true) in sorted <==> k in file
    ensures forall k :: Origin(k, false) in sorted <==> k in runtime
  {
    var all := Origins(file, true) + Origins(runtime, false);
    forall o: Origin
      ensures o in sorted <==> o in all
    {
      assert o in sorted <==> o in multiset(sorted);
      assert o in all <==> o in multiset(all);
    }
    forall k
      ensures Origin(k, true) in all <==> k in file
      ensures Origin(k, false) in all <==> k in runtime
    {
      if k in file {
        var i :| 0 <= i < |file| && file[i] == k;
        assert all[i] == Origin(k, true);
      }
      if k in runtime {
        var i :| 0 <= i < |runtime| && runtime[i] == k;
        assert all[|file| + i] == Origin(k, false);
      }
    }
  }

  /** A runtime key absent from the file is flagged. */
  lemma AbsentIsFlagged(file: seq<Octets>, runtime: seq<Octets>, sorted: seq<Origin>, key: Octets)
    requires Qsorted(file, runtime, sorted) && key in runtime && key !in file
    ensures exists i :: 0 <= i < |sorted| && Flagged(sorted, i) && sorted[i].key == key
  {
    SameMembers(file, runtime, sorted);
    assert Origin(key, false) in sorted;
    var i :| 0 <= i < |sorted| && sorted[i] == Origin(key, false);
    if i < |sorted| - 1 {
      assert sorted[i + 1] in sorted;
    }
    assert Flagged(sorted, i);
  }

  /** A flagged key that the file also has stands at least twice in the runtime list. */
  lemma FlaggedSharedIsDouble(file: seq<Octets>, runtime: seq<Octets>, sorted: seq<Origin>, i: nat)
    requires Qsorted(file, runtime, sorted) && i < |sorted| && Flagged(sorted, i) && sorted[i].key in file
    ensures i + 1 < |sorted| && sorted[i + 1] == sorted[i]
  {
    var key := sorted[i].key;
    SameMembers(file, runtime, sorted);
    assert Origin(key, true) in sorted;
    var m :| 0 <= m < |sorted| && sorted[m] == Origin(key, true);
    MemcmpSelf(key);
    assert m < i ==> PubkeyCmp(sorted[m], sorted[i]) <= 0;
    assert i + 1 <= m;
    if i + 1 < m {
      Between(sorted[i], sorted[i + 1], sorted[m]);
    }
  }

  lemma RuntimeCount(file: seq<Octets>, runtime: seq<Octets>, sorted: seq<Origin>, key: Octets)
    requires Qsorted(file, runtime, sorted)
    ensures multiset(sorted)[Origin(key, false)] == multiset(runtime)[key]
  {
    OriginCount(runtime, key);
    FileCount(file, key);
    assert multiset(Origins(file, true) + Origins(runtime, false))
        == multiset(Origins(file, true)) + multiset(Origins(runtime, false));
  }

  lemma AdjacentCount(sorted: seq<Origin>, i: nat)
    requires i + 1 < |sorted| && sorted[i + 1] == sorted[i]
    ensures multiset(sorted)[sorted[i]] >= 2
  {
    assert sorted == sorted[..i] + [sorted[i]] + [sorted[i + 1]] + sorted[i + 2..];
  }

  lemma TwoPlaces(sorted: seq<Origin>, o: Origin) returns (i: nat, k: nat)
    requires multiset(sorted)[o] >= 2
    ensures i < k < |sorted| && sorted[i] == o && sorted[k] == o
  {
    assert o in multiset(sorted);
    i :| 0 <= i < |sorted| && sorted[i] == o;
    assert sorted == sorted[..i] + [o] + sorted[i + 1..];
    if o in sorted[..i] {
      k := i;
      i :| 0 <= i < k && sorted[i] == o;
    } else {
      assert o in multiset(sorted[i + 1..]);
      var m :| 0 <= m < |sorted[i + 1..]| && sorted[i + 1..][m] == o;
      k := i + 1 + m;
    }
  }

  lemma {:induction false} OriginCount(keys: seq<Octets>, key: Octets)
    ensures multiset(Origins(keys, false))[Origin(key, false)] == multiset(keys)[key]
  {
    if keys != [] {
      var n := |keys| - 1;
      OriginCount(keys[..n], key);
      assert keys == keys[..n] + [keys[n]];
      assert Origins(keys, false) == Origins(keys[..n], false) + [Origin(keys[n], false)];
    }
  }

  lemma FileCount(keys: seq<Octets>, key: Octets)
    ensures multiset(Origins(keys, true))[Origin(key, false)] == 0
  {
    assert Origin(key, false) !in Origins(keys, true);
  }

  /** Exactly which keys are flagged, for every input: the runtime keys absent from
      the file, and those the file has but the runtime list carries twice. */
  lemma FlaggedExactly(file: seq<Octets>, runtime: seq<Octets>, sorted: seq<Origin>, key: Octets)
    requires Qsorted(file, runtime, sorted)
    ensures (exists i :: 0 <= i < |sorted| && Flagged(sorted, i) && sorted[i].key == key) <==>
            key in runtime && (key !in file || multiset(runtime)[key] >= 2)
  {
    if key in runtime && key !in file {
      AbsentIsFlagged(file, runtime, sorted, key);
    }
    if multiset(runtime)[key] >= 2 {
      DoubleIsFlagged(file, runtime, sorted, key);
    }
    if i :| 0 <= i < |sorted| && Flagged(sorted, i) && sorted[i].key == key {
      FlaggedIsSurplus(file, runtime, sorted, i);
    }
  }

  lemma DoubleIsFlagged(file: seq<Octets>, runtime: seq<Octets>, sorted: seq<Origin>, key: Octets)
    requires Qsorted(file, runtime, sorted) && multiset(runtime)[key] >= 2
    ensures key in runtime && exists i :: 0 <= i < |sorted| && Flagged(sorted, i) && sorted[i].key == key
  {
    RuntimeCount(file, runtime, sorted, key);
    var i, k := TwoPlaces(sorted, Origin(key, false));
    Between(sorted[i], sorted[i + 1], sorted[k]);
    assert Flagged(sorted, i);
  }

  lemma FlaggedIsSurplus(file: seq<Octets>, runtime: seq<Octets>, sorted: seq<Origin>, i: nat)
    requires Qsorted(file, runtime, sorted) && i < |sorted| && Flagged(sorted, i)
    ensures sorted[i].key in runtime && (sorted[i].key in file ==> multiset(runtime)[sorted[i].key] >= 2)
  {
    var key := sorted[i].key;
    SameMembers(file, runtime, sorted);
    assert sorted[i] == Origin(key, false);
    if key in file {
      RuntimeCount(file, runtime, sorted, key);
      FlaggedSharedIsDouble(file, runtime, sorted, i);
      AdjacentCount(sorted, i);
    }
  }

  /** A peer that the file keeps is flagged when the runtime list has its key
      twice. */
  lemma DoubleLosesShared(key: Octets)
    ensures var sorted := [Origin(key, false), Origin(key, false), Origin(key, true)];
            Qsorted([key], [key, key], sorted) && Flagged(sorted, 0) && sorted[0].key == key
  {
    MemcmpSelf(key);
    hide Memcmp;
    var file, run := Origin(key, true), Origin(key, false);
    var sorted := [run, run, file];
    assert PubkeyCmp(run, file) <= 0 && PubkeyCmp(run, run) <= 0;
    assert sorted[0] == run && sorted[1] == run && sorted[2] == file;
    assert Origins([key], true) == [file] && Origins([key, key], false) == [run, run];
    assert multiset([file] + [run, run]) == multiset(sorted);
  }

  // ---- The request, and what it does to the device ----

  function Removal(key: Octets): Peer {
    Peer(key, true, false, None, None, None, None, [])
  }

  function Removals(keys: seq<Octets>): (r: seq<Peer>)
    ensures |r| == |keys|
    ensures forall i :: 0 <= i < |keys| ==>
      r[i] == Removal(keys[i]) == Peer(keys[i], true, false, None, None, None, None, [])
  {
    seq(|keys|, i requires 0 <= i < |keys| => Removal(keys[i]))
  }

  function Keys(s: seq<Peer>): (r: seq<Octets>)
    ensures |r| == |s| && forall i :: 0 <= i < |s| ==> r[i] == s[i].key
  {
    seq(|s|, i requires 0 <= i < |s| => s[i].key)
  }

  /** sync_conf, given the runtime keys, if the interface can be read, and what
      qsort makes of both lists. */
  method SyncConf(file: Request, runtime: Option<seq<Octets>>, sorted: seq<Origin>) returns (r: Option<Request>)
    requires runtime.Some? ==> Qsorted(Keys(file.peers), runtime.value, sorted)
    ensures r.None? <==> file.peers != [] && runtime.None?
    ensures file.peers == [] || runtime == Some([]) ==> r == Some(file)
    ensures file.peers != [] && runtime.Some? && runtime.value != [] ==>
      exists keys: seq<Octets> ::
        && r == Some(file.(replacePeers := false, peers := Removals(keys) + file.peers))
        && forall k :: k in keys <==>
                       k in runtime.value && (k !in Keys(file.peers) || multiset(runtime.value)[k] >= 2)
  {
    if file.peers == [] {
      return Some(file);
    }
    if runtime.None? {
      return None;
    }
    if runtime.value == [] {
      return Some(file);
    }
    var keys := Scan(sorted);
    forall k
      ensures k in keys <==> k in runtime.value && (k !in Keys(file.peers) || multiset(runtime.value)[k] >= 2)
    {
      FlaggedExactly(Keys(file.peers), runtime.value, sorted, k);
    }
    r := Some(file.(replacePeers := false, peers := Removals(keys) + file.peers));
  }

  lemma {:induction false} RemovalsApply(d: Device, keys: seq<Octets>)
    ensures ApplyPeers(d, Removals(keys)).peers.Keys == d.peers.Keys - set k | k in keys
    decreases keys
  {
    if keys != [] {
      var e := ApplyPeer(d, Removal(keys[0]));
      RemovalsApply(e, keys[1..]);
      assert Removals(keys)[1..] == Removals(keys[1..]);
      assert (set k | k in keys) == {keys[0]} + set k | k in keys[1..];
    }
  }

  lemma {:induction false} AdditionsApply(d: Device, s: seq<Peer>)
    requires forall i :: 0 <= i < |s| ==> !s[i].remove
    ensures ApplyPeers(d, s).peers.Keys == d.peers.Keys + set k | k in Keys(s)
    decreases s
  {
    if s != [] {
      var e := ApplyPeer(d, s[0]);
      AdditionsApply(e, s[1..]);
      assert Keys(s)[1..] == Keys(s[1..]);
      assert (set k | k in Keys(s)) == {s[0].key} + set k | k in Keys(s[1..]);
      assert e.peers.Keys == d.peers.Keys + {s[0].key};
    }
  }

  /** After syncconf the device has exactly the peers of the file. */
  lemma SyncLeavesFilePeers(d: Device, file: Request, runtime: seq<Octets>, r: Request, keys: seq<Octets>)
    requires d.name == file.name && file.replacePeers && d.peers.Keys == set k | k in runtime
    requires forall i :: 0 <= i < |file.peers| ==> !file.peers[i].remove
    requires if file.peers == [] || runtime == [] then r == file
             else r == file.(replacePeers := false, peers := Removals(keys) + file.peers)
    requires forall k :: k in keys <==> k in runtime && (k !in Keys(file.peers) || multiset(runtime)[k] >= 2)
    ensures Apply(d, r).peers.Keys == set k | k in Keys(file.peers)
  {
    var e := ApplySettings(d, r.settings);
    SettingsKeepPeers(d, r.settings);
    hide ApplyPeers, ApplySettings;
    if file.peers == [] || runtime == [] {
      AdditionsApply(e.(peers := map[], routes := map[]), file.peers);
    } else {
      ApplyPeersConcat(e, Removals(keys), file.peers);
      RemovalsApply(e, keys);
      AdditionsApply(ApplyPeers(e, Removals(keys)), file.peers);
    }
  }

  lemma {:induction false} SettingsKeepPeers(d: Device, settings: seq<(nat, Octets)>)
    ensures ApplySettings(d, settings).peers == d.peers
    decreases settings
  {
    if settings != [] {
      SettingsKeepPeers(d.(settings := d.settings[settings[0].0 := settings[0].1]), settings[1..]);
    }
  }

  // ---- What the removals leave alone ----

  function KeptRoutes(routes: map<Route, Octets>, gone: set<Octets>): map<Route, Octets> {
    map r | r in routes && routes[r] !in gone :: routes[r]
  }

  /** The device without some peers and their routes. */
  function Without(d: Device, gone: set<Octets>): Device {
    d.(peers := d.peers - gone, routes := KeptRoutes(d.routes, gone))
  }

  lemma {:induction false} RemovalsAreWithout(d: Device, keys: seq<Octets>)
    ensures ApplyPeers(d, Removals(keys)) == Without(d, set k | k in keys)
    decreases keys
  {
    if keys == [] {
      assert Without(d, {}) == d;
    } else {
      var e := ApplyPeer(d, Removal(keys[0]));
      RemovalsAreWithout(e, keys[1..]);
      assert Removals(keys)[1..] == Removals(keys[1..]);
      assert (set k | k in keys) == {keys[0]} + set k | k in keys[1..];
      assert Without(e, set k | k in keys[1..]) == Without(d, set k | k in keys);
    }
  }

  lemma {:induction false} AddRoutesWithout(routes: map<Route, Octets>, ips: seq<Ip>, key: Octets, gone: set<Octets>)
    requires key !in gone
    ensures AddRoutes(KeptRoutes(routes, gone), ips, key) == KeptRoutes(AddRoutes(routes, ips, key), gone)
    decreases ips
  {
    if ips != [] {
      var r := RouteOf(ips[0]);
      assert KeptRoutes(routes, gone)[r := key] == KeptRoutes(routes[r := key], gone);
      AddRoutesWithout(routes[r := key], ips[1..], key, gone);
    }
  }

  /** A peer that stays is configured the same with or without the others. */
  lemma PeerWithout(d: Device, p: Peer, gone: set<Octets>)
    requires !p.remove && p.key !in gone
    ensures ApplyPeer(Without(d, gone), p) == Without(ApplyPeer(d, p), gone)
  {
    hide AddRoutes, RouteOf;
    assert DropRoutes(KeptRoutes(d.routes, gone), p.key) == KeptRoutes(DropRoutes(d.routes, p.key), gone);
    AddRoutesWithout(if p.replace then DropRoutes(d.routes, p.key) else d.routes, p.ips, p.key, gone);
    assert ApplyPeer(Without(d, gone), p).peers == Without(ApplyPeer(d, p), gone).peers;
  }

  lemma {:induction false} PeersWithout(d: Device, s: seq<Peer>, gone: set<Octets>)
    requires forall i :: 0 <= i < |s| ==> !s[i].remove && s[i].key !in gone
    ensures ApplyPeers(Without(d, gone), s) == Without(ApplyPeers(d, s), gone)
    decreases s
  {
    hide ApplyPeer, Without;
    if s != [] {
      PeerWithout(d, s[0], gone);
      PeersWithout(ApplyPeer(d, s[0]), s[1..], gone);
    }
  }

  /** With distinct runtime keys, syncconf is a merge: the device becomes what the
      file alone, without replacing, would make of it, less the runtime peers that
      the file does not have. */
  lemma SyncIsMerge(d: Device, file: Request, runtime: seq<Octets>, r: Request, keys: seq<Octets>)
    requires d.name == file.name && file.peers != [] && (forall k :: multiset(runtime)[k] <= 1)
    requires forall i :: 0 <= i < |file.peers| ==> !file.peers[i].remove
    requires r == file.(replacePeers := false, peers := Removals(keys) + file.peers)
    requires forall k :: k in keys <==> k in runtime && (k !in Keys(file.peers) || multiset(runtime)[k] >= 2)
    ensures Apply(d, r)
        == Without(Apply(d, file.(replacePeers := false)), set k | k in runtime && k !in Keys(file.peers))
  {
    hide ApplyPeers, ApplySettings, Without;
    var e := ApplySettings(d, r.settings);
    var gone := set k | k in runtime && k !in Keys(file.peers);
    assert (set k | k in keys) == gone by {
      assert forall k :: multiset(runtime)[k] < 2;
    }
    ApplyPeersConcat(e, Removals(keys), file.peers);
    RemovalsAreWithout(e, keys);
    assert forall i :: 0 <= i < |file.peers| ==> file.peers[i].key == Keys(file.peers)[i];
    PeersWithout(e, file.peers, gone);
  }

  /** So a peer of both lists keeps its entry, its keys, endpoint and routes
      included, through the removals. */
  lemma SharedPeersStay(d: Device, file: Request, runtime: seq<Octets>, r: Request, keys: seq<Octets>, k: Octets)
    requires d.name == file.name && file.peers != [] && (forall k :: multiset(runtime)[k] <= 1)
    requires forall i :: 0 <= i < |file.peers| ==> !file.peers[i].remove
    requires r == file.(replacePeers := false, peers := Removals(keys) + file.peers)
    requires forall k :: k in keys <==> k in runtime && (k !in Keys(file.peers) || multiset(runtime)[k] >= 2)
    requires k in d.peers && k in Keys(file.peers)
    ensures k !in keys
    ensures var merged := Apply(d, file.(replacePeers := false));
            && k in merged.peers && k in Apply(d, r).peers && Apply(d, r).peers[k] == merged.peers[k]
            && forall route :: (route in Apply(d, r).routes && Apply(d, r).routes[route] == k)
                               <==> (route in merged.routes && merged.routes[route] == k)
  {
    hide Apply;
    SyncIsMerge(d, file, runtime, r, keys);
    MergedHas(d, file, k);
    assert multiset(runtime)[k] <= 1;
  }

  lemma MergedHas(d: Device, file: Request, k: Octets)
    requires d.name == file.name && k in Keys(file.peers) && forall i :: 0 <= i < |file.peers| ==> !file.peers[i].remove
    ensures k in Apply(d, file.(replacePeers := false)).peers
  {
    hide ApplyPeers, ApplySettings;
    AdditionsApply(ApplySettings(d, file.settings), file.peers);
  }
}
