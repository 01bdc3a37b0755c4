/** coalesce_peers (ipc-linux.h): adjacent pieces of one peer are joined again. */
module CoalescePeers {
  import opened Netlink
  import opened KernelDevice

  /** A peer on the read side; `tail` says that last_allowedip is not null. */
  datatype Listed = Listed(key: Octets, ips: seq<Ip>, tail: bool)

  /** What parse_allowedips leaves: a tail exactly if there is an allowed IP. */
  ghost predicate Parsed(s: seq<Listed>) {
    forall i :: 0 <= i < |s| ==> s[i].tail == (s[i].ips != [])
  }

  datatype Merged = Merged(key: Octets, ips: seq<Ip>)

  function Plain(p: Listed): Merged { Merged(p.key, p.ips) }

  function PlainAll(s: seq<Listed>): (r: seq<Merged>)
    ensures |r| == |s| && forall i :: 0 <= i < |s| ==> r[i] == Plain(s[i])
  {
    seq(|s|, i requires 0 <= i < |s| => Plain(s[i]))
  }

  /** One more piece: joined to the last peer if the keys agree. */
  function Append(t: seq<Merged>, x: Merged): seq<Merged> {
    if t != [] && t[|t| - 1].key == x.key
    then t[..|t| - 1] + [Merged(x.key, t[|t| - 1].ips + x.ips)]
    else t + [x]
  }

  function Coalesced(s: seq<Merged>): seq<Merged> {
    if s == [] then [] else Append(Coalesced(s[..|s| - 1]), s[|s| - 1])
  }

  /** A run of one key in which an empty piece follows a filled one and is itself
      followed by another piece: its null tail would be dereferenced. */
  ghost predicate Breaks(s: seq<Listed>, i: int, j: int) {
    && 0 <= i < j && j + 1 < |s|
    && s[i].ips != [] && s[j].ips == []
    && forall k :: i <= k <= j + 1 ==> s[k].key == s[i].key
  }

  ghost predicate Broken(s: seq<Listed>) {
    exists i, j :: Breaks(s, i, j)
  }

  /** Everything before piece m has been joined into `done` and `peer`, the run of
      `peer` began at piece b, and no break lies behind. */
  ghost predicate Joined(s: seq<Listed>, done: seq<Listed>, peer: Listed, b: nat, m: nat) {
    && b < m <= |s|
    && PlainAll(done) + [Plain(peer)] == Coalesced(PlainAll(s[..m]))
    && peer.tail == (s[m - 1].ips != [])
    && (forall k :: b <= k < m ==> s[k].key == peer.key)
    && (b > 0 ==> s[b - 1].key != s[b].key)
    && (peer.ips == [] <==> forall k :: b <= k < m ==> s[k].ips == [])
    && forall i, j :: Breaks(s, i, j) ==> j + 1 >= m
  }

  lemma JoinedStart(s: seq<Listed>)
    requires s != [] && Parsed(s)
    ensures Joined(s, [], s[0], 0, 1)
  {
    assert PlainAll(s[..1]) == [Plain(s[0])] && PlainAll([]) == [];
    FirstPiece(Plain(s[0]));
  }

  lemma PrefixNext(s: seq<Listed>, m: nat)
    requires m < |s|
    ensures Coalesced(PlainAll(s[..m + 1])) == Append(Coalesced(PlainAll(s[..m])), Plain(s[m]))
  {
    assert PlainAll(s[..m + 1]) == PlainAll(s[..m]) + [Plain(s[m])];
    NextPiece(PlainAll(s[..m]), Plain(s[m]));
  }

  lemma JoinedNextPeer(s: seq<Listed>, done: seq<Listed>, peer: Listed, b: nat, m: nat)
    requires Parsed(s) && Joined(s, done, peer, b, m) && m < |s| && peer.key != s[m].key
    ensures Joined(s, done + [peer], s[m], m, m + 1)
  {
    hide Coalesced;
    PrefixNext(s, m);
    assert PlainAll(done + [peer]) == PlainAll(done) + [Plain(peer)];
    forall i, j | Breaks(s, i, j)
      ensures j + 1 != m
    {
      assert s[m - 1].key == peer.key;
      KeyAcross(s, i, j);
    }
  }

  lemma KeyAcross(s: seq<Listed>, i: int, j: int)
    requires Breaks(s, i, j)
    ensures s[j].key == s[j + 1].key
  {
  }

  lemma JoinedMerge(s: seq<Listed>, done: seq<Listed>, peer: Listed, b: nat, m: nat, joined: Listed)
    requires Parsed(s) && Joined(s, done, peer, b, m) && m < |s| && peer.key == s[m].key
    requires peer.ips == [] || peer.tail
    requires joined == Listed(peer.key, peer.ips + s[m].ips, s[m].tail)
    ensures Joined(s, done, joined, b, m + 1)
  {
    hide Coalesced;
    PrefixNext(s, m);
    assert (PlainAll(done) + [Plain(peer)])[..|done|] == PlainAll(done);
    NoBreakHere(s, b, m);
  }

  lemma JoinedFails(s: seq<Listed>, done: seq<Listed>, peer: Listed, b: nat, m: nat)
    requires Joined(s, done, peer, b, m) && m < |s| && peer.key == s[m].key && peer.ips != [] && !peer.tail
    ensures Broken(s)
  {
    var i :| b <= i < m && s[i].ips != [];
    assert Breaks(s, i, m - 1);
  }

  /** The loop of coalesce_peers.  It fails (a null dereference in C) exactly on a
      broken list and otherwise computes the coalesced one. */
  method Coalesce(s: seq<Listed>) returns (ok: bool, list: seq<Listed>)
    requires Parsed(s)
    ensures ok <==> !Broken(s)
    ensures ok ==> PlainAll(list) == Coalesced(PlainAll(s))
  {
    hide Joined, Coalesced;
    if s == [] {
      assert PlainAll(s) == Coalesced([]) by { NothingCoalesces(); }
      return true, s;
    }
    JoinedStart(s);
    var done: seq<Listed>, peer, next := [], s[0], 1;
    ghost var b := 0;
    while next < |s|
      invariant 1 <= next <= |s| && 0 <= b && Joined(s, done, peer, b, next)
    {
      if peer.key != s[next].key {
        JoinedNextPeer(s, done, peer, b, next);
        done, peer, b := done + [peer], s[next], next;
      } else {
        var joined;
        if peer.ips == [] {
          joined := Listed(peer.key, s[next].ips, s[next].tail);
        } else {
          if !peer.tail {
            JoinedFails(s, done, peer, b, next);
            return false, s;
          }
          joined := Listed(peer.key, peer.ips + s[next].ips, s[next].tail);
        }
        JoinedMerge(s, done, peer, b, next, joined);
        peer := joined;
      }
      next := next + 1;
    }
    JoinedEnd(s, done, peer, b);
    ok, list := true, done + [peer];
  }

  lemma JoinedEnd(s: seq<Listed>, done: seq<Listed>, peer: Listed, b: nat)
    requires Joined(s, done, peer, b, |s|)
    ensures PlainAll(done + [peer]) == Coalesced(PlainAll(s)) && !Broken(s)
  {
    assert s[..|s|] == s;
    assert PlainAll(done + [peer]) == PlainAll(done) + [Plain(peer)];
  }

  lemma NothingCoalesces()
    ensures Coalesced([]) == []
  {
  }

  lemma FirstPiece(x: Merged)
    ensures Coalesced([x]) == [x]
  {
    assert [x][..0] == [];
    assert Coalesced([]) == [];
  }

  lemma NextPiece(t: seq<Merged>, x: Merged)
    ensures Coalesced(t + [x]) == Append(Coalesced(t), x)
  {
    assert (t + [x])[..|t|] == t;
  }

  lemma NoBreakHere(s: seq<Listed>, b: nat, m: nat)
    requires b < m < |s| && s[m - 1].key == s[m].key && (b > 0 ==> s[b - 1].key != s[b].key)
    requires forall k :: b <= k < m ==> s[k].key == s[b].key
    requires s[m - 1].ips != [] || forall k :: b <= k < m ==> s[k].ips == []
    ensures forall i, j :: Breaks(s, i, j) ==> j + 1 != m
  {
    forall i, j | Breaks(s, i, j)
      ensures j + 1 != m
    {
      RunStartsEarly(s, i, j, b);
    }
  }

  lemma RunStartsEarly(s: seq<Listed>, i: int, j: int, b: nat)
    requires Breaks(s, i, j) && b < |s|
    ensures i < b <= j + 1 ==> s[b - 1].key == s[b].key
  {
  }

  // ---- Splitting and joining ----

  function JoinIps(chunk: seq<Merged>): seq<Ip> {
    if chunk == [] then [] else JoinIps(chunk[..|chunk| - 1]) + chunk[|chunk| - 1].ips
  }

  /** A peer cut into one or more pieces. */
  ghost predicate PiecesOf(chunk: seq<Merged>, p: Merged) {
    && chunk != []
    && (forall i :: 0 <= i < |chunk| ==> chunk[i].key == p.key)
    && JoinIps(chunk) == p.ips
  }

  function Flatten(chunks: seq<seq<Merged>>): seq<Merged> {
    if chunks == [] then [] else Flatten(chunks[..|chunks| - 1]) + chunks[|chunks| - 1]
  }

  lemma {:induction false} ChunkCoalesces(done: seq<Merged>, t: seq<Merged>, chunk: seq<Merged>, key: Octets)
    requires chunk != [] && forall i :: 0 <= i < |chunk| ==> chunk[i].key == key
    requires Coalesced(done) == t && (t != [] ==> t[|t| - 1].key != key)
    ensures Coalesced(done + chunk) == t + [Merged(key, JoinIps(chunk))]
  {
    var n := |chunk| - 1;
    assert (done + chunk)[..|done| + n] == done + chunk[..n];
    if n == 0 {
      assert done + chunk[..0] == done;
      assert JoinIps(chunk[..0]) + chunk[0].ips == chunk[0].ips;
      assert chunk[0] == Merged(key, chunk[0].ips);
    } else {
      ChunkCoalesces(done, t, chunk[..n], key);
    }
  }

  /** Joining undoes splitting when neighbouring peers have different keys. */
  lemma {:induction false} CoalesceUndoesSplit(peers: seq<Merged>, chunks: seq<seq<Merged>>)
    requires |chunks| == |peers| && forall i :: 0 <= i < |peers| ==> PiecesOf(chunks[i], peers[i])
    requires forall i, k :: 0 <= i < k < |peers| && k == i + 1 ==> peers[i].key != peers[k].key
    ensures Coalesced(Flatten(chunks)) == peers
  {
    if peers != [] {
      var n := |peers| - 1;
      CoalesceUndoesSplit(peers[..n], chunks[..n]);
      ChunkCoalesces(Flatten(chunks[..n]), peers[..n], chunks[n], peers[n].key);
      assert peers == peers[..n] + [peers[n]];
    }
  }

  /** Neighbouring pieces of one key belong to one peer. */
  ghost predicate Filled(s: seq<Merged>) {
    forall i, k :: 0 <= i < k < |s| && k == i + 1 && s[i].key == s[k].key ==> s[k].ips != []
  }

  lemma {:induction false} FilledChunks(peers: seq<Merged>, chunks: seq<seq<Merged>>)
    requires |chunks| == |peers| && forall i :: 0 <= i < |peers| ==> PiecesOf(chunks[i], peers[i])
    requires forall i, k :: 0 <= i < k < |peers| && k == i + 1 ==> peers[i].key != peers[k].key
    requires forall i, j :: 0 <= i < |chunks| && 0 < j < |chunks[i]| ==> chunks[i][j].ips != []
    ensures Filled(Flatten(chunks))
    ensures peers != [] ==> Flatten(chunks) != []
                            && Flatten(chunks)[|Flatten(chunks)| - 1].key == peers[|peers| - 1].key
  {
    if peers != [] {
      var n := |peers| - 1;
      FilledChunks(peers[..n], chunks[..n]);
      JoinFilled(Flatten(chunks[..n]), chunks[n], peers[n].key, if n > 0 then peers[n - 1].key else []);
    }
  }

  lemma JoinFilled(s: seq<Merged>, chunk: seq<Merged>, key: Octets, before: Octets)
    requires Filled(s) && chunk != [] && (s != [] ==> s[|s| - 1].key == before != key)
    requires forall i :: 0 <= i < |chunk| ==> chunk[i].key == key
    requires forall j :: 0 < j < |chunk| ==> chunk[j].ips != []
    ensures Filled(s + chunk) && (s + chunk)[|s| + |chunk| - 1].key == key
  {
    var t := s + chunk;
    forall i, k | 0 <= i < k < |t| && k == i + 1 && t[i].key == t[k].key
      ensures t[k].ips != []
    {
      if k < |s| {
        assert t[i] == s[i] && t[k] == s[k];
      } else {
        assert t[k] == chunk[k - |s|];
        assert k > |s| ==> t[i] == chunk[i - |s|];
      }
    }
  }

  /** The loop on a dump: peers cut into pieces, every later one with an allowed IP,
      come back as they were, in their order. */
  method CoalesceDump(s: seq<Listed>, ghost peers: seq<Merged>, ghost chunks: seq<seq<Merged>>)
    returns (ok: bool, list: seq<Listed>)
    requires Parsed(s) && PlainAll(s) == Flatten(chunks)
    requires |chunks| == |peers| && forall i :: 0 <= i < |peers| ==> PiecesOf(chunks[i], peers[i])
    requires forall i, k :: 0 <= i < k < |peers| && k == i + 1 ==> peers[i].key != peers[k].key
    requires forall i, j :: 0 <= i < |chunks| && 0 < j < |chunks[i]| ==> chunks[i][j].ips != []
    ensures ok && PlainAll(list) == peers
  {
    hide Coalesced, Flatten, Broken, PiecesOf;
    FilledChunks(peers, chunks);
    PlainFilled(s);
    FilledPiecesAreSafe(s);
    CoalesceUndoesSplit(peers, chunks);
    ok, list := Coalesce(s);
  }

  lemma PlainFilled(s: seq<Listed>)
    requires Filled(PlainAll(s))
    ensures forall i :: 0 < i < |s| && s[i - 1].key == s[i].key ==> s[i].ips != []
  {
    var p := PlainAll(s);
    forall i | 0 < i < |s| && s[i - 1].key == s[i].key
      ensures s[i].ips != []
    {
      assert p[i - 1] == Plain(s[i - 1]) && p[i] == Plain(s[i]);
    }
  }

  /** An empty piece between two others of its peer breaks the join when the first
      is filled: such lists exist for every key and allowed IP. */
  lemma EmptyMiddleBreaks(key: Octets, ip: Ip, last: seq<Ip>)
    ensures var s := [Listed(key, [ip], true), Listed(key, [], false), Listed(key, last, last != [])];
            Parsed(s) && Broken(s)
  {
    var s := [Listed(key, [ip], true), Listed(key, [], false), Listed(key, last, last != [])];
    assert Breaks(s, 0, 1);
  }

  /** With no empty later piece nothing is broken. */
  lemma FilledPiecesAreSafe(s: seq<Listed>)
    requires forall i :: 0 < i < |s| && s[i - 1].key == s[i].key ==> s[i].ips != []
    ensures !Broken(s)
  {
    forall i, j
      ensures !Breaks(s, i, j)
    {
      if 0 < j < |s| {
        assert s[j - 1].key == s[j].key ==> s[j].ips != [];
      }
    }
  }
}
