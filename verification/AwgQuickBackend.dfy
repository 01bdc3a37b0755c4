/** The kernel backend, AwgQuickBackend.java: every change of state is a command
    that may fail, and a failed change is compensated by further commands. */
module AwgQuickBackend {
  import opened Options
  import opened GoTunnels

  datatype Result = Done(state: State) | Thrown

  /** The elements of a list. */
  function Elements(s: seq<Tunnel>): set<Tunnel> {
    set t | t in s
  }

  predicate Distinct(s: seq<Tunnel>) {
    forall i, j :: 0 <= i < j < |s| ==> s[i] != s[j]
  }

  /** m is the part of w with the given keys. */
  ghost predicate PartOf(m: map<Tunnel, Config>, w: map<Tunnel, Config>, keys: set<Tunnel>) {
    m.Keys == keys && keys <= w.Keys && forall t :: t in keys ==> m[t] == w[t]
  }

  lemma WholePart(m: map<Tunnel, Config>, w: map<Tunnel, Config>)
    requires PartOf(m, w, w.Keys)
    ensures m == w
  {
  }

  lemma ElementsPrefix(s: seq<Tunnel>, i: nat)
    requires i < |s|
    ensures Elements(s[..i + 1]) == Elements(s[..i]) + {s[i]}
    ensures Elements(s[..0]) == {} && Elements(s[..|s|]) == Elements(s)
  {
    assert s[..i + 1] == s[..i] + [s[i]];
    assert s[..|s|] == s;
  }

  lemma StartPart(w: map<Tunnel, Config>, order: seq<Tunnel>)
    ensures PartOf(w, w, w.Keys - Elements(order[..0])) && Elements([]) <= w.Keys
  {
  }

  lemma NextPart(m: map<Tunnel, Config>, w: map<Tunnel, Config>, order: seq<Tunnel>, i: nat)
    requires i < |order| && Distinct(order) && Elements(order) == w.Keys
    requires PartOf(m, w, w.Keys - Elements(order[..i]))
    ensures order[i] in w && PartOf(m - {order[i]}, w, w.Keys - Elements(order[..i + 1]))
    ensures Elements(order[..i + 1]) <= w.Keys
  {
    assert order[i] in Elements(order);
    ElementsPrefix(order, i);
    assert forall t :: t in order[..i + 1] ==> t in order;
  }

  lemma EndPart(m: map<Tunnel, Config>, w: map<Tunnel, Config>, order: seq<Tunnel>)
    requires Elements(order) == w.Keys && PartOf(m, w, w.Keys - Elements(order[..|order|]))
    ensures m == map[]
  {
    assert order[..|order|] == order;
  }

  lemma {:induction false} SubsetSize(a: set<Tunnel>, b: set<Tunnel>)
    requires a <= b
    ensures |a| <= |b|
  {
    if a != {} {
      var t :| t in a;
      SubsetSize(a - {t}, b - {t});
    }
  }

  /** One tunnel beside some others: at most one in all exactly if it is alone. */
  lemma OneBeside(others: set<Tunnel>, t: Tunnel)
    ensures |others + {t}| <= 1 <==> !exists u :: u in others && u != t
  {
    if u :| u in others && u != t {
      SubsetSize({u, t}, others + {t});
    } else {
      assert others + {t} == {t};
    }
  }

  /** Where there was one interface at most, there are two exactly when a tunnel
      was brought up beside a stray. */
  lemma FewTunnels(before: set<Tunnel>, strays: set<Tunnel>, after: set<Tunnel>, t: Tunnel, up: bool)
    requires strays <= before && |before| <= 1
    requires if up then after == strays + {t} || (after == before && t in before) else after <= before
    ensures |after| <= 1 <==> !(up && exists u :: u in strays && u != t)
  {
    OneBeside(strays, t);
    OneBeside(before, t);
    SubsetSize(if after <= before then after else before, before);
    assert t in before ==> before + {t} == before;
  }

  lemma NothingListed(order: seq<Tunnel>, w: map<Tunnel, Config>)
    requires Elements(order) == w.Keys
    ensures w == map[] ==> order == []
  {
    if order != [] {
      assert order[0] in Elements(order);
    }
  }

  lemma {:induction false} ListedOnce(order: seq<Tunnel>)
    requires Distinct(order)
    ensures |Elements(order)| == |order|
  {
    if order != [] {
      var n := |order| - 1;
      ListedOnce(order[..n]);
      ElementsPrefix(order, n);
      assert order[n] !in Elements(order[..n]);
    }
  }

  lemma OnlyOne(s: set<Tunnel>, u: Tunnel)
    requires |s| <= 1 && u in s
    ensures s == {u}
  {
    assert |s - {u}| == 0;
  }

  class Backend {
    /** The interfaces that run, and what the backend knows of them; an interface
        may be left over from an earlier process. */
    var interfaces: set<Tunnel>
    var runningConfigs: map<Tunnel, Config>
    var multipleTunnels: bool
    /** The commands run so far, and which commands work. */
    var calls: nat
    const works: nat -> bool

    ghost predicate Valid()
      reads this
    {
      runningConfigs.Keys <= interfaces
    }

    /** Interfaces that run without the backend knowing their configuration. */
    ghost function Strays(): set<Tunnel>
      reads this
    {
      interfaces - runningConfigs.Keys
    }

    constructor (works: nat -> bool, leftover: set<Tunnel>)
      ensures Valid() && runningConfigs == map[] && interfaces == leftover && this.works == works && !multipleTunnels
    {
      interfaces, runningConfigs, multipleTunnels, calls := leftover, map[], false, 0;
      this.works := works;
    }

    /** getState; when the interfaces cannot be listed none seems to run. */
    function GetState(tunnel: Tunnel, listed: bool): State
      reads this
    {
      if listed && tunnel in interfaces then UP else DOWN
    }

    /** setStateInternal; a command that fails changes nothing. */
    method SetStateInternal(tunnel: Tunnel, config: Option<Config>, up: bool) returns (ok: bool)
      requires Valid()
      modifies this`interfaces, this`runningConfigs, this`calls
      ensures Valid() && calls == old(calls) + (if config.Some? then 1 else 0)
      ensures ok <==> config.Some? && works(old(calls))
      ensures runningConfigs == if !ok then old(runningConfigs)
                                else if up then old(runningConfigs)[tunnel := config.value]
                                else old(runningConfigs) - {tunnel}
      ensures interfaces == if !ok then old(interfaces)
                            else if up then old(interfaces) + {tunnel} else old(interfaces) - {tunnel}
    {
      if config.None? {
        return false;
      }
      ok := works(calls);
      calls := calls + 1;
      if !ok {
        return;
      }
      if up {
        interfaces := interfaces + {tunnel};
        runningConfigs := runningConfigs[tunnel := config.value];
      } else {
        interfaces := interfaces - {tunnel};
        runningConfigs := runningConfigs - {tunnel};
      }
    }

    /** Bringing a list of tunnels up again, up to the first failure. */
    method Restore(list: seq<Tunnel>, snapshot: map<Tunnel, Config>, ghost keys: set<Tunnel>)
      requires Valid() && PartOf(runningConfigs, snapshot, keys)
      requires Elements(list) <= snapshot.Keys && Strays() !! snapshot.Keys
      modifies this`interfaces, this`runningConfigs, this`calls
      ensures Valid() && calls >= old(calls) && Strays() == old(Strays())
      ensures runningConfigs.Keys <= keys + Elements(list) && PartOf(runningConfigs, snapshot, runningConfigs.Keys)
      ensures (forall j :: old(calls) <= j < calls ==> works(j)) ==> runningConfigs.Keys == keys + Elements(list)
    {
      var i := 0;
      assert list[..0] == [];
      while i < |list|
        invariant 0 <= i <= |list| && Valid() && calls == old(calls) + i && Strays() == old(Strays())
        invariant PartOf(runningConfigs, snapshot, keys + Elements(list[..i]))
        invariant forall j :: old(calls) <= j < calls ==> works(j)
      {
        assert list[i] in Elements(list);
        ElementsPrefix(list, i);
        var ok := SetStateInternal(list[i], Some(snapshot[list[i]]), true);
        if !ok {
          return;
        }
        i := i + 1;
      }
      assert list[..|list|] == list;
    }

    /** Taking all known tunnels down, with the rewind of those taken down when
        one of them fails. */
    method TakeDownAll(order: seq<Tunnel>) returns (ok: bool, ghost from: nat)
      requires Valid() && Distinct(order) && Elements(order) == runningConfigs.Keys
      modifies this`interfaces, this`runningConfigs, this`calls
      ensures Valid() && old(calls) <= from <= calls && Strays() == old(Strays())
      ensures ok ==> runningConfigs == map[] && from == calls
      ensures !ok ==> PartOf(runningConfigs, old(runningConfigs), runningConfigs.Keys)
      ensures !ok && (forall j :: from <= j < calls ==> works(j)) ==> runningConfigs == old(runningConfigs)
      ensures !ok ==> exists j :: old(calls) <= j < from && !works(j)
      ensures old(runningConfigs) == map[] ==> ok && calls == old(calls)
      ensures ok <==> forall j :: old(calls) <= j < old(calls) + |order| ==> works(j)
      ensures ok ==> calls == old(calls) + |order|
    {
      hide Elements, Distinct, PartOf;
      NothingListed(order, runningConfigs);
      var snapshot, rewind := runningConfigs, [];
      var i := 0;
      StartPart(snapshot, order);
      while i < |order|
        invariant 0 <= i <= |order| && Valid() && rewind == order[..i] && calls >= old(calls)
        invariant calls == old(calls) + i && forall j :: old(calls) <= j < calls ==> works(j)
        invariant Strays() == old(Strays()) && Elements(rewind) <= snapshot.Keys
        invariant PartOf(runningConfigs, snapshot, snapshot.Keys - Elements(rewind))
      {
        NextPart(runningConfigs, snapshot, order, i);
        ok := SetStateInternal(order[i], Some(snapshot[order[i]]), false);
        from := calls;
        if !ok {
          assert !works(from - 1);
          Restore(rewind, snapshot, snapshot.Keys - Elements(rewind));
          if forall j :: from <= j < calls ==> works(j) {
            assert runningConfigs.Keys == snapshot.Keys;
            WholePart(runningConfigs, snapshot);
          }
          return;
        }
        rewind := rewind + [order[i]];
        assert rewind == order[..i + 1];
        i := i + 1;
      }
      EndPart(runningConfigs, snapshot, order);
      return true, calls;
    }

    /** setState to UP of a tunnel that does not seem to run. */
    method BringUp(tunnel: Tunnel, config: Option<Config>, order: seq<Tunnel>) returns (r: Result, ghost from: nat)
      requires Valid() && Distinct(order) && Elements(order) == runningConfigs.Keys
      modifies this`interfaces, this`runningConfigs, this`calls
      ensures Valid() && old(calls) <= from <= calls
      ensures r.Thrown? ==>
        PartOf(runningConfigs, old(runningConfigs), runningConfigs.Keys) && Strays() == old(Strays())
      ensures r.Thrown? && (forall j :: from <= j < calls ==> works(j)) ==> runningConfigs == old(runningConfigs)
      ensures r.Thrown? ==> config.None? || exists j :: old(calls) <= j < from && !works(j)
      ensures var n := if multipleTunnels then 0 else |order|;
              && (r.Done? <==> config.Some? && forall j :: old(calls) <= j <= old(calls) + n ==> works(j))
              && (r.Done? ==> calls == old(calls) + n + 1)
      ensures r.Done? ==> config.Some? && r.state == UP
      ensures r.Done? && multipleTunnels ==>
        runningConfigs == old(runningConfigs)[tunnel := config.value] && interfaces == old(interfaces) + {tunnel}
      ensures r.Done? && !multipleTunnels ==>
        runningConfigs == map[tunnel := config.value] && interfaces == old(Strays()) + {tunnel}
    {
      hide Elements, Distinct;
      var snapshot := runningConfigs;
      var ok;
      if !multipleTunnels {
        ok, from := TakeDownAll(order);
        if !ok {
          return Thrown, from;
        }
      }
      ok := SetStateInternal(tunnel, config, true);
      from := calls;
      if !ok {
        assert config.Some? ==> !works(from - 1);
        if !multipleTunnels {
          Restore(order, snapshot, {});
          if forall j :: from <= j < calls ==> works(j) {
            assert runningConfigs.Keys == {} + snapshot.Keys == snapshot.Keys;
            WholePart(runningConfigs, snapshot);
          }
        }
        return Thrown, from;
      }
      return Done(UP), from;
    }

    /** setState to UP of a tunnel that runs. */
    method Replace(tunnel: Tunnel, originalConfig: Option<Config>, config: Option<Config>)
      returns (r: Result, ghost from: nat)
      requires Valid() && tunnel in interfaces
      requires originalConfig == if tunnel in runningConfigs then Some(runningConfigs[tunnel]) else None
      modifies this`interfaces, this`runningConfigs, this`calls
      ensures Valid() && old(calls) <= from <= calls
      ensures r.Thrown? ==> PartOf(runningConfigs, old(runningConfigs), runningConfigs.Keys)
      ensures r.Thrown? ==> interfaces == old(interfaces) || interfaces == old(interfaces) - {tunnel}
      ensures r.Thrown? ==> config.None? || exists j :: old(calls) <= j < from && !works(j)
      ensures Strays() <= old(Strays())
      ensures r.Thrown? && (forall j :: from <= j < calls ==> works(j)) ==>
        runningConfigs == old(runningConfigs) && (originalConfig.Some? ==> interfaces == old(interfaces))
      ensures r.Done? ==> config.Some? && r.state == UP && runningConfigs == old(runningConfigs)[tunnel := config.value]
      ensures r.Done? ==> interfaces == old(interfaces) && calls == old(calls) + 2
      ensures r.Done? <==> config.Some? && works(old(calls)) && works(old(calls) + 1)
    {
      var ok := SetStateInternal(tunnel, if originalConfig == None then config else originalConfig, false);
      from := calls;
      if !ok {
        assert config.Some? ==> !works(from - 1);
        return Thrown, from;
      }
      ok := SetStateInternal(tunnel, config, true);
      from := calls;
      if !ok {
        assert config.Some? ==> !works(from - 1);
        if originalConfig != None {
          var again := SetStateInternal(tunnel, originalConfig, true);
          assert again ==> runningConfigs == old(runningConfigs);
        } else {
          assert old(runningConfigs) - {tunnel} == old(runningConfigs);
        }
        return Thrown, from;
      }
      return Done(UP), from;
    }

    /** What setState promises of a failure and of a success, for the state before
        and after it; `whole` says that the compensating commands worked. */
    static ghost predicate Undone(known: map<Tunnel, Config>, running: set<Tunnel>, known2: map<Tunnel, Config>,
                                  running2: set<Tunnel>, tunnel: Tunnel, whole: bool)
    {
      && PartOf(known2, known, known2.Keys) && running2 <= running
      && (whole ==> known2 == known && running - running2 <= {tunnel} - known.Keys)
    }

    static ghost predicate Changed(known: map<Tunnel, Config>, running: set<Tunnel>, known2: map<Tunnel, Config>,
                                   running2: set<Tunnel>, tunnel: Tunnel, config: Option<Config>, up: bool,
                                   seen: bool, alone: bool)
    {
      if up then
        && config.Some? && tunnel in known2 && known2[tunnel] == config.value
        && (seen ==> running2 == running && known2 - {tunnel} == known - {tunnel})
        && (!seen && alone ==> running2 == running - known.Keys + {tunnel} && known2.Keys == {tunnel})
        && (!seen && !alone ==> running2 == running + {tunnel} && known2 - {tunnel} == known - {tunnel})
      else
        known2 == (if seen then known - {tunnel} else known) && running2 == if seen then running - {tunnel} else running
    }

    /** Replace, in the terms of setState. */
    method ReplaceRunning(tunnel: Tunnel, config: Option<Config>) returns (r: Result, ghost from: nat)
      requires Valid() && tunnel in interfaces
      modifies this`interfaces, this`runningConfigs, this`calls
      ensures Valid() && old(calls) <= from <= calls && Strays() <= old(Strays())
      ensures r.Thrown? ==> config.None? || exists j :: old(calls) <= j < from && !works(j)
      ensures r.Thrown? ==> Undone(old(runningConfigs), old(interfaces), runningConfigs, interfaces, tunnel,
                                   forall j :: from <= j < calls ==> works(j))
      ensures r.Done? <==> config.Some? && works(old(calls)) && works(old(calls) + 1)
      ensures r.Done? ==> r.state == UP && calls == old(calls) + 2
      ensures r.Done? ==> Changed(old(runningConfigs), old(interfaces), runningConfigs, interfaces, tunnel, config,
                                  true, true, !multipleTunnels)
    {
      hide PartOf, Undone, Changed;
      var originalConfig := if tunnel in runningConfigs then Some(runningConfigs[tunnel]) else None;
      r, from := Replace(tunnel, originalConfig, config);
      if r.Done? {
        ReplacedIsChanged(old(runningConfigs), runningConfigs, interfaces, tunnel, config, !multipleTunnels);
      } else {
        ReplacedIsUndone(old(runningConfigs), old(interfaces), runningConfigs, interfaces, tunnel,
                         forall j :: from <= j < calls ==> works(j));
      }
    }

    /** BringUp, in the terms of setState. */
    method BringUpNew(tunnel: Tunnel, config: Option<Config>, order: seq<Tunnel>) returns (r: Result, ghost from: nat)
      requires Valid() && Distinct(order) && Elements(order) == runningConfigs.Keys
      modifies this`interfaces, this`runningConfigs, this`calls
      ensures Valid() && old(calls) <= from <= calls && Strays() <= old(Strays())
      ensures r.Thrown? ==> config.None? || exists j :: old(calls) <= j < from && !works(j)
      ensures r.Thrown? ==> Undone(old(runningConfigs), old(interfaces), runningConfigs, interfaces, tunnel,
                                   forall j :: from <= j < calls ==> works(j))
      ensures var n := if multipleTunnels then 0 else |old(runningConfigs)|;
              && (r.Done? <==> config.Some? && forall j :: old(calls) <= j <= old(calls) + n ==> works(j))
              && (r.Done? ==> r.state == UP && calls == old(calls) + n + 1)
      ensures r.Done? ==> Changed(old(runningConfigs), old(interfaces), runningConfigs, interfaces, tunnel, config,
                                  true, false, !multipleTunnels)
    {
      ListedOnce(order);
      hide Elements, Distinct, PartOf, Undone, Changed;
      r, from := BringUp(tunnel, config, order);
      if r.Done? {
        BroughtUpIsChanged(old(runningConfigs), old(interfaces), runningConfigs, interfaces, tunnel, config,
                           !multipleTunnels);
      } else {
        BroughtUpIsUndone(old(runningConfigs), old(interfaces), runningConfigs, interfaces, tunnel,
                          forall j :: from <= j < calls ==> works(j));
      }
    }

    static lemma NothingIsUndone(known: map<Tunnel, Config>, running: set<Tunnel>, tunnel: Tunnel)
      ensures Undone(known, running, known, running, tunnel, true)
    {
    }

    static lemma ReplacedIsChanged(known: map<Tunnel, Config>, known2: map<Tunnel, Config>, running: set<Tunnel>,
                                   tunnel: Tunnel, config: Option<Config>, alone: bool)
      requires config.Some? && known2 == known[tunnel := config.value]
      ensures Changed(known, running, known2, running, tunnel, config, true, true, alone)
    {
      assert known2 - {tunnel} == known - {tunnel};
    }

    static lemma ReplacedIsUndone(known: map<Tunnel, Config>, running: set<Tunnel>, known2: map<Tunnel, Config>,
                                  running2: set<Tunnel>, tunnel: Tunnel, whole: bool)
      requires PartOf(known2, known, known2.Keys) && (running2 == running || running2 == running - {tunnel})
      requires whole ==> known2 == known && (tunnel in known ==> running2 == running)
      ensures Undone(known, running, known2, running2, tunnel, whole)
    {
      hide PartOf;
    }

    static lemma BroughtUpIsChanged(known: map<Tunnel, Config>, running: set<Tunnel>, known2: map<Tunnel, Config>,
                                    running2: set<Tunnel>, tunnel: Tunnel, config: Option<Config>, alone: bool)
      requires config.Some?
      requires alone ==> known2 == map[tunnel := config.value] && running2 == running - known.Keys + {tunnel}
      requires !alone ==> known2 == known[tunnel := config.value] && running2 == running + {tunnel}
      ensures Changed(known, running, known2, running2, tunnel, config, true, false, alone)
    {
      assert !alone ==> known2 - {tunnel} == known - {tunnel};
    }

    static lemma BroughtUpIsUndone(known: map<Tunnel, Config>, running: set<Tunnel>, known2: map<Tunnel, Config>,
                                   running2: set<Tunnel>, tunnel: Tunnel, whole: bool)
      requires known.Keys <= running && known2.Keys <= running2
      requires PartOf(known2, known, known2.Keys) && running2 - known2.Keys == running - known.Keys
      requires whole ==> known2 == known
      ensures Undone(known, running, known2, running2, tunnel, whole)
    {
      assert running2 == (running2 - known2.Keys) + known2.Keys;
      assert running == (running - known.Keys) + known.Keys;
    }

    /** setState to DOWN of a tunnel that runs. */
    method GoDown(tunnel: Tunnel, config: Option<Config>) returns (r: Result, ghost from: nat)
      requires Valid() && tunnel in interfaces
      modifies this`interfaces, this`runningConfigs, this`calls
      ensures Valid() && old(calls) <= from == calls && Strays() <= old(Strays())
      ensures r.Thrown? ==> config.None? || !works(old(calls))
      ensures r.Thrown? ==> Undone(old(runningConfigs), old(interfaces), runningConfigs, interfaces, tunnel, true)
      ensures r.Done? ==> r.state == DOWN
      ensures r.Done? <==> (tunnel in old(runningConfigs) || config.Some?) && works(old(calls))
      ensures calls == old(calls) + if tunnel in old(runningConfigs) || config.Some? then 1 else 0
      ensures r.Done? ==> Changed(old(runningConfigs), old(interfaces), runningConfigs, interfaces, tunnel, config,
                                  false, true, !multipleTunnels)
    {
      var originalConfig := if tunnel in runningConfigs then Some(runningConfigs[tunnel]) else None;
      var ok := SetStateInternal(tunnel, if originalConfig == None then config else originalConfig, false);
      from := calls;
      r := if ok then Done(DOWN) else Thrown;
    }

    /** setState.  A failure brings up nothing that was not up before.  If the
        compensating commands, those from `from` on, work, all is as it was, but
        for a stray whose own change failed half way: its configuration is not
        known, so it stays down.  It succeeds exactly when every command it needs
        works, and what is so already needs none. */
    method SetState(tunnel: Tunnel, state: State, config: Option<Config>, listed: bool, tools: bool, order: seq<Tunnel>)
      returns (r: Result, ghost from: nat)
      requires Valid() && Distinct(order) && Elements(order) == runningConfigs.Keys
      modifies this`interfaces, this`runningConfigs, this`calls
      ensures Valid() && old(calls) <= from <= calls && Strays() <= old(Strays())
      ensures r.Thrown? ==> config.None? || !tools || exists j :: old(calls) <= j < from && !works(j)
      ensures r.Thrown? ==> Undone(old(runningConfigs), old(interfaces), runningConfigs, interfaces, tunnel,
                                   forall j :: from <= j < calls ==> works(j))
      ensures r.Done? ==>
        r.state == if state != TOGGLE then state else if old(GetState(tunnel, listed)) == UP then DOWN else UP
      ensures var seen, known := listed && tunnel in old(interfaces), tunnel in old(runningConfigs);
              var asked := if state != TOGGLE then state else if seen then DOWN else UP;
              if (asked == UP && seen && known && config == Some(old(runningConfigs)[tunnel]))
                 || (asked == DOWN && !seen)
              then
                && r == Done(asked) && calls == old(calls)
                && interfaces == old(interfaces) && runningConfigs == old(runningConfigs)
              else if asked == DOWN then
                && (r.Done? <==> (known || config.Some?) && works(old(calls)))
                && calls == old(calls) + (if known || config.Some? then 1 else 0)
              else
                var n := if seen then 1 else if multipleTunnels then 0 else |old(runningConfigs)|;
                && (r.Done? <==> tools && config.Some? && forall j :: old(calls) <= j <= old(calls) + n ==> works(j))
                && (r.Done? ==> calls == old(calls) + n + 1)
      ensures r.Done? ==> Changed(old(runningConfigs), old(interfaces), runningConfigs, interfaces, tunnel, config,
                                  r.state == UP, old(GetState(tunnel, listed)) == UP, !multipleTunnels)
    {
      SameIsChanged(runningConfigs, interfaces, tunnel, config, !multipleTunnels);
      NothingIsUndone(runningConfigs, interfaces, tunnel);
      hide Elements, Distinct, Changed, Undone;
      from := calls;
      var originalState := GetState(tunnel, listed);
      var originalConfig := if tunnel in runningConfigs then Some(runningConfigs[tunnel]) else None;
      var wanted := state;
      if wanted == TOGGLE {
        wanted := if originalState == UP then DOWN else UP;
      }
      if (wanted == UP && originalState == UP && originalConfig != None && originalConfig == config)
         || (wanted == DOWN && originalState == DOWN) {
        return Done(originalState), from;
      }
      if wanted == UP {
        if !tools {
          return Thrown, from;
        }
        if originalState == UP {
          r, from := ReplaceRunning(tunnel, config);
        } else {
          r, from := BringUpNew(tunnel, config, order);
        }
      } else {
        r, from := GoDown(tunnel, config);
      }
    }

    static lemma SameIsChanged(known: map<Tunnel, Config>, running: set<Tunnel>, tunnel: Tunnel,
                               config: Option<Config>, alone: bool)
      ensures Changed(known, running, known, running, tunnel, config, false, false, alone)
      ensures tunnel in known && config == Some(known[tunnel]) ==>
        Changed(known, running, known, running, tunnel, config, true, true, alone)
    {
    }

    /** With multiple tunnels off, where one interface runs at most there are more
        after a change exactly when that one is a stray, another tunnel is asked
        for with a configuration, and the tools and the first command work. */
    method SetStateAlone(tunnel: Tunnel, state: State, config: Option<Config>, listed: bool, tools: bool,
                         order: seq<Tunnel>)
      returns (r: Result)
      requires Valid() && Distinct(order) && Elements(order) == runningConfigs.Keys
      requires !multipleTunnels && |interfaces| <= 1
      modifies this`interfaces, this`runningConfigs, this`calls
      ensures Valid() && Strays() <= old(Strays())
      ensures |interfaces| <= 1 <==>
        !(state != DOWN && tools && config.Some? && works(old(calls)) && exists u :: u in old(Strays()) && u != tunnel)
      ensures r == Done(UP) ==> config.Some? && tunnel in runningConfigs && runningConfigs[tunnel] == config.value
    {
      hide Elements, Distinct, PartOf;
      ghost var from;
      if u :| u in Strays() && u != tunnel {
        OnlyOne(interfaces, u);
        assert runningConfigs.Keys == {};
      }
      r, from := SetState(tunnel, state, config, listed, tools, order);
      FewTunnels(old(interfaces), old(Strays()), interfaces, tunnel, r == Done(UP));
    }
  }

  datatype Event =
    | SetMultiple(on: bool)
    | Change(tunnel: Tunnel, state: State, config: Option<Config>, listed: bool, tools: bool)

  /** If the last call brought a tunnel up, it runs with what was asked for. */
  ghost predicate Fulfilled(b: Backend, e: Event, results: seq<Result>)
    requires e.Change? && results != []
    reads b
  {
    results[|results| - 1] == Done(UP) ==>
      e.config.Some? && e.tunnel in b.runningConfigs && b.runningConfigs[e.tunnel] == e.config.value
  }

  /** Whatever fails, the backend knows only tunnels that run; and with nothing
      left over and multiple tunnels never on, one tunnel runs at most, and the
      backend knows it. */
  method Run(events: seq<Event>, works: nat -> bool, leftover: set<Tunnel>,
             orders: map<Tunnel, Config> -> seq<Tunnel>)
    returns (b: Backend, results: seq<Result>)
    requires forall m :: Distinct(orders(m)) && Elements(orders(m)) == m.Keys
    ensures b.Valid() && b.Strays() <= leftover
    ensures leftover == {} && SetMultiple(true) !in events ==>
      b.interfaces == b.runningConfigs.Keys && |b.interfaces| <= 1
    ensures events != [] && events[|events| - 1].SetMultiple? ==> b.multipleTunnels == events[|events| - 1].on
    ensures events != [] && events[|events| - 1].Change? ==>
      results != [] && Fulfilled(b, events[|events| - 1], results)
  {
    b := new Backend(works, leftover);
    results := [];
    for i := 0 to |events|
      invariant fresh(b) && b.Valid() && b.Strays() <= leftover
      invariant SetMultiple(true) !in events ==> !b.multipleTunnels
      invariant leftover == {} && SetMultiple(true) !in events ==> |b.interfaces| <= 1
      invariant i > 0 && events[i - 1].SetMultiple? ==> b.multipleTunnels == events[i - 1].on
      invariant i > 0 && events[i - 1].Change? ==> results != [] && Fulfilled(b, events[i - 1], results)
    {
      match events[i]
      case SetMultiple(on) => b.multipleTunnels := on;
      case Change(tunnel, state, config, listed, tools) =>
        if b.multipleTunnels || |b.interfaces| > 1 {
          var r, from := b.SetState(tunnel, state, config, listed, tools, orders(b.runningConfigs));
          results := results + [r];
        } else {
          var r := b.SetStateAlone(tunnel, state, config, listed, tools, orders(b.runningConfigs));
          results := results + [r];
        }
    }
    assert b.interfaces == b.Strays() + b.runningConfigs.Keys;
  }

  /** An interface left over is not taken down: bringing another tunnel up beside
      it makes two, whenever the command works. */
  method TwoAtOnce(b: Backend, u: Tunnel, t: Tunnel, c: Config)
    requires b.Valid() && b.interfaces == {u} && b.runningConfigs == map[] && u != t
    requires !b.multipleTunnels && b.works(b.calls)
    modifies b
    ensures b.Valid() && b.interfaces == {u, t} && b.runningConfigs == map[t := c]
  {
    assert Elements([]) == {};
    hide Elements;
    var r, from := b.SetState(t, UP, Some(c), true, true, []);
    assert b.runningConfigs == map[t := c];
  }
}
