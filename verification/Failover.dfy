/** The failover logic of GoBackend.java: a poller counts failures and starts a
    switch to another server, which a thread of its own completes.  Checking and
    scheduling are one step, as with a single poller. */
module Failover {
  import opened GoTunnels

  /** What happens: new settings, a sample of the connection, and a switch that
      starts, with the settings in force, and succeeds or fails. */
  datatype Event =
    | Configured
    | Sampled(reachable: bool)
    | Started(time: int, target: string, active: string, servers: nat, samples: int, cooldown: int)
    | Succeeded(time: int)
    | Failed(time: int)

  function Change(e: Event): int {
    match e
    case Started(_, _, _, _, _, _) => 1
    case Succeeded(_) => -1
    case Failed(_) => -1
    case _ => 0
  }

  /** How many switches have been started and not completed. */
  function InFlight(log: seq<Event>): (n: int) {
    if log == [] then 0 else InFlight(log[..|log| - 1]) + Change(log[|log| - 1])
  }

  /** How many samples in a row have failed, counting from the last one that did
      not, the last switch and the last change of settings. */
  function Streak(log: seq<Event>): nat {
    if log == [] then 0
    else
      var before := log[..|log| - 1];
      match log[|log| - 1]
      case Configured => 0
      case Succeeded(_) => 0
      case Sampled(reachable) => if reachable then 0 else Streak(before) + 1
      case _ => Streak(before)
  }

  lemma InFlightNext(log: seq<Event>, e: Event)
    ensures InFlight(log + [e]) == InFlight(log) + Change(e)
    ensures Streak(log + [e]) == match e
                                 case Configured => 0
                                 case Succeeded(_) => 0
                                 case Sampled(reachable) => if reachable then 0 else Streak(log) + 1
                                 case _ => Streak(log)
  {
    assert (log + [e])[..|log|] == log;
  }

  /** A switch may start when none is under way, there is another server to go to,
      enough samples in a row have failed, and the cooldown, a minute at least,
      has passed since every earlier success. */
  ghost predicate Fair(before: seq<Event>, e: Event) {
    e.Started? ==>
      && InFlight(before) == 0
      && e.servers >= 2 && e.target != e.active
      && Streak(before) >= e.samples >= 2
      && e.cooldown >= 60
      && forall i :: 0 <= i < |before| && before[i].Succeeded? ==> e.time - before[i].time >= 1000 * e.cooldown
  }

  /** Over the whole history there is never more than one switch under way, and
      every switch goes to another server. */
  ghost predicate Single(log: seq<Event>) {
    (forall j :: 0 <= j <= |log| ==> 0 <= InFlight(log[..j]) <= 1)
    && forall j :: 0 <= j < |log| && log[j].Started? ==> log[j].target != log[j].active
  }

  /** And every start is fair. */
  ghost predicate Safe(log: seq<Event>) {
    Single(log) && forall j :: 0 <= j < |log| ==> Fair(log[..j], log[j])
  }

  lemma SingleNext(log: seq<Event>, e: Event)
    requires Single(log) && 0 <= InFlight(log + [e]) <= 1 && (e.Started? ==> e.target != e.active)
    ensures Single(log + [e])
  {
    hide InFlight;
    var l := log + [e];
    forall j | 0 <= j <= |l|
      ensures 0 <= InFlight(l[..j]) <= 1
    {
      assert j <= |log| ==> l[..j] == log[..j];
      assert j == |l| ==> l[..j] == l;
    }
  }

  lemma SafeNext(log: seq<Event>, e: Event)
    requires Safe(log) && Fair(log, e) && Single(log + [e])
    ensures Safe(log + [e])
  {
    hide Fair, Single;
    var l := log + [e];
    forall j | 0 <= j < |l|
      ensures Fair(l[..j], l[j])
    {
      assert l[..j] == log[..j];
      assert log[..|log|] == log;
    }
  }

  /** A start when none is under way. */
  lemma StartIsSingle(log: seq<Event>, e: Event)
    requires Single(log) && InFlight(log) != 1 && e.Started? && e.target != e.active
    ensures Single(log + [e]) && InFlight(log) == 0 && InFlight(log + [e]) == 1 && Streak(log + [e]) == Streak(log)
  {
    hide InFlight, Streak;
    InFlightNext(log, e);
    assert log[..|log|] == log;
    assert 0 <= InFlight(log[..|log|]) <= 1;
    SingleNext(log, e);
  }

  lemma EndIsSingle(log: seq<Event>, e: Event)
    requires Single(log) && InFlight(log) == 1 && (e.Succeeded? || e.Failed?)
    ensures Single(log + [e]) && InFlight(log + [e]) == 0
    ensures Streak(log + [e]) == if e.Succeeded? then 0 else Streak(log)
    ensures Safe(log) ==> Safe(log + [e])
  {
    hide InFlight, Streak;
    InFlightNext(log, e);
    SingleNext(log, e);
    if Safe(log) {
      SafeNext(log, e);
    }
  }

  lemma NoteIsSingle(log: seq<Event>, e: Event)
    requires Single(log) && (e.Configured? || e.Sampled?)
    ensures Single(log + [e]) && InFlight(log + [e]) == InFlight(log)
    ensures Streak(log + [e]) == if e == Sampled(false) then Streak(log) + 1 else 0
    ensures Safe(log) ==> Safe(log + [e])
  {
    hide InFlight, Streak;
    InFlightNext(log, e);
    assert log[..|log|] == log;
    assert 0 <= InFlight(log[..|log|]) <= 1;
    SingleNext(log, e);
    if Safe(log) {
      SafeNext(log, e);
    }
  }

  /** The last success, if there is one, was at the given time. */
  ghost predicate LastSuccess(log: seq<Event>, last: int) {
    forall i :: 0 <= i < |log| && log[i].Succeeded? ==> log[i].time <= last && Succeeded(last) in log
  }

  lemma KeepsLast(log: seq<Event>, e: Event, last: int)
    requires LastSuccess(log, last) && !e.Succeeded?
    ensures LastSuccess(log + [e], last)
  {
    var l := log + [e];
    forall i | 0 <= i < |l| && l[i].Succeeded?
      ensures l[i].time <= last && Succeeded(last) in l
    {
      assert l[i] == log[i];
    }
  }

  lemma SuccessIsLast(log: seq<Event>, last: int, now: int)
    requires LastSuccess(log, last) && last <= now
    ensures LastSuccess(log + [Succeeded(now)], now)
  {
    var l := log + [Succeeded(now)];
    assert l[|log|] == Succeeded(now);
    forall i | 0 <= i < |l| && l[i].Succeeded?
      ensures l[i].time <= now
    {
      assert i < |log| ==> l[i] == log[i];
    }
  }

  /** A start when none is under way is fair exactly if the check holds: other
      servers, enough failures and, after a success, the cooldown. */
  lemma StartFairExactly(log: seq<Event>, e: Event, last: int)
    requires InFlight(log) == 0 && e.Started? && e.target != e.active && e.samples >= 2 && e.cooldown >= 60
    requires LastSuccess(log, last)
    ensures Fair(log, e) <==>
      e.servers >= 2 && Streak(log) >= e.samples && (Succeeded(last) in log ==> e.time - last >= e.cooldown * 1000)
  {
    if Fair(log, e) && Succeeded(last) in log {
      var i :| 0 <= i < |log| && log[i] == Succeeded(last);
      assert e.time - log[i].time >= 1000 * e.cooldown;
    }
  }

  /** An unfair start is never forgiven. */
  lemma SafeExactly(log: seq<Event>, e: Event)
    requires Safe(log) && Single(log + [e])
    ensures Safe(log + [e]) <==> Fair(log, e)
  {
    hide Fair, Single;
    var l := log + [e];
    if Fair(log, e) {
      SafeNext(log, e);
    }
    if Safe(l) {
      assert Fair(l[..|log|], l[|log|]);
      assert l[..|log|] == log;
    }
  }

  lemma NoneOrOne(log: seq<Event>)
    requires Single(log)
    ensures 0 <= InFlight(log) <= 1
  {
    hide InFlight;
    assert log[..|log|] == log;
  }

  /** Two starts have a completion between them. */
  lemma {:induction false} NeverTwoAtOnce(log: seq<Event>, i: nat, j: nat)
    requires Single(log) && i < j < |log| && log[i].Started? && log[j].Started?
    ensures exists k :: i < k < j && (log[k].Succeeded? || log[k].Failed?)
  {
    assert log[..j + 1] == log[..j] + [log[j]];
    InFlightNext(log[..j], log[j]);
    assert 0 <= InFlight(log[..i]) && InFlight(log[..j + 1]) <= 1;
    if forall k :: i < k < j ==> !(log[k].Succeeded? || log[k].Failed?) {
      NoCompletion(log, i, j);
    }
  }

  lemma {:induction false} NoCompletion(log: seq<Event>, i: nat, j: nat)
    requires i < j <= |log| && log[i].Started?
    requires forall k :: i < k < j ==> !(log[k].Succeeded? || log[k].Failed?)
    ensures InFlight(log[..j]) > InFlight(log[..i])
    decreases j
  {
    assert log[..j] == log[..j - 1] + [log[j - 1]];
    InFlightNext(log[..j - 1], log[j - 1]);
    if i < j - 1 {
      NoCompletion(log, i, j - 1);
    }
  }

  datatype Step =
    | Configure(primary: string, active: string, configs: seq<(string, Config)>,
                samples: int, stale: int, cooldown: int)
    | SetActive(server: string)
    | Poll(now: int, handshake: int, probe: bool, tunnel: bool)
    | Late(at: int, tunnel: bool)
    | Finish(at: int, succeeds: bool)

  /** The keys of a map listed in its own order. */
  predicate Distinct(configs: seq<(string, Config)>) {
    forall i, j :: 0 <= i < j < |configs| ==> configs[i].0 != configs[j].0
  }

  predicate HasKey(configs: seq<(string, Config)>, server: string) {
    exists i :: 0 <= i < |configs| && configs[i].0 == server
  }

  function Max(a: int, b: int): (r: int)
    ensures r >= a && r >= b && (r == a || r == b)
  {
    if a < b then b else a
  }

  class Switcher {
    var configs: seq<(string, Config)>
    var primaryServer: string
    var activeServer: string
    var failureSamples: int
    var handshakeStaleSeconds: int
    var switchCooldownSeconds: int
    var failures: nat
    var lastSwitchMillis: int
    var switching: bool
    var selected: string
    var selectedConfig: Config
    var clock: int
    var log: seq<Event>

    ghost predicate Valid()
      reads this
    {
      && Distinct(configs) && failureSamples >= 2 && switchCooldownSeconds >= 60
      && lastSwitchMillis <= clock
      && Single(log) && (switching <==> InFlight(log) == 1) && failures == Streak(log)
      && LastSuccess(log, lastSwitchMillis)
    }

    constructor ()
      ensures Valid() && Safe(log) && log == [] && clock == 0 && lastSwitchMillis == 0 && !switching
      ensures configs == [] && primaryServer == "" && activeServer == "" && failures == 0
      ensures failureSamples == 3 && handshakeStaleSeconds == 180 && switchCooldownSeconds == 300
    {
      configs, primaryServer, activeServer := [], "", "";
      failureSamples, handshakeStaleSeconds, switchCooldownSeconds := 3, 180, 300;
      failures, lastSwitchMillis, switching, clock, log := 0, 0, false, 0, [];
      selected, selectedConfig := "", Config("");
    }

    /** configureFailover. */
    method Configure(primary: string, active: string, given: seq<(string, Config)>,
                     samples: int, stale: int, cooldown: int)
      requires Valid() && Distinct(given)
      modifies this
      ensures Valid() && log == old(log) + [Configured] && clock == old(clock) && switching == old(switching)
      ensures old(Safe(log)) ==> Safe(log)
      ensures selected == old(selected) && selectedConfig == old(selectedConfig)
      ensures configs == given && failures == 0 && primaryServer == primary && lastSwitchMillis == old(lastSwitchMillis)
      ensures activeServer == if exists i :: 0 <= i < |given| && given[i].0 == active then active else primary
      ensures failureSamples == Max(2, samples) && switchCooldownSeconds == Max(60, cooldown)
      ensures handshakeStaleSeconds == Max(60, stale)
    {
      hide Safe, Single, InFlight, Streak, Distinct, LastSuccess;
      configs, primaryServer := given, primary;
      activeServer := if HasKey(given, active) then active else primary;
      failureSamples := Max(2, samples);
      handshakeStaleSeconds := Max(60, stale);
      switchCooldownSeconds := Max(60, cooldown);
      failures := 0;
      NoteIsSingle(log, Configured);
      KeepsLast(log, Configured, lastSwitchMillis);
      log := log + [Configured];
    }

    /** setActiveFailoverServer. */
    method SetActive(server: string)
      requires Valid()
      modifies this`activeServer
      ensures Valid()
      ensures activeServer == if exists i :: 0 <= i < |configs| && configs[i].0 == server then server
                              else old(activeServer)
    {
      if HasKey(configs, server) {
        activeServer := server;
      }
    }

    /** shouldScheduleFailover. */
    predicate ShouldSchedule(now: int)
      reads this
    {
      !switching && |configs| >= 2 && failures >= failureSamples
      && now - lastSwitchMillis >= switchCooldownSeconds * 1000
    }

    /** What of the check makes a start fair when none is under way: before the
        first success there is nothing to cool down from. */
    ghost predicate Warranted(now: int)
      reads this
    {
      |configs| >= 2 && failures >= failureSamples
      && (Succeeded(lastSwitchMillis) in log ==> now - lastSwitchMillis >= switchCooldownSeconds * 1000)
    }

    /** The selected server is the first that is not the active one, with its own
        configuration. */
    ghost predicate FirstOther()
      reads this
    {
      exists i :: 0 <= i < |configs| && configs[i] == (selected, selectedConfig) && selected != activeServer
                  && forall k :: 0 <= k < i ==> configs[k].0 == activeServer
    }

    /** scheduleFailover: the first server that is not the active one.  It looks
        again whether a switch is under way, and at nothing else of the check. */
    method Schedule(now: int, tunnel: bool) returns (scheduled: bool)
      requires Valid() && now >= clock
      modifies this`switching, this`selected, this`selectedConfig, this`log
      ensures Valid()
      ensures scheduled <==> tunnel && !old(switching) && exists i :: 0 <= i < |configs| && configs[i].0 != activeServer
      ensures scheduled ==> switching && FirstOther()
      ensures scheduled ==>
        log == old(log) + [Started(now, selected, activeServer, |configs|, failureSamples, switchCooldownSeconds)]
      ensures !scheduled ==> log == old(log) && switching == old(switching)
      ensures !scheduled ==> selected == old(selected) && selectedConfig == old(selectedConfig)
      ensures old(Safe(log)) ==> (Safe(log) <==> !scheduled || old(Warranted(now)))
      ensures old(ShouldSchedule(now)) ==> old(Warranted(now)) && scheduled == tunnel
    {
      hide Safe, Single, InFlight, Streak, Fair, LastSuccess;
      if ShouldSchedule(now) {
        assert configs[0].0 != configs[1].0;
      }
      if !tunnel || switching {
        return false;
      }
      var i := 0;
      while i < |configs| && configs[i].0 == activeServer
        invariant 0 <= i <= |configs| && forall k :: 0 <= k < i ==> configs[k].0 == activeServer
      {
        i := i + 1;
      }
      if i == |configs| {
        return false;
      }
      selected, selectedConfig := configs[i].0, configs[i].1;
      assert configs[i] == (selected, selectedConfig);
      var e := Started(now, selected, activeServer, |configs|, failureSamples, switchCooldownSeconds);
      StartIsSingle(log, e);
      StartFairExactly(log, e, lastSwitchMillis);
      if Safe(log) {
        SafeExactly(log, e);
      }
      KeepsLast(log, e, lastSwitchMillis);
      switching := true;
      log := log + [e];
      return true;
    }

    /** What the poller takes for a working connection: with failover configured
        a probe, otherwise a recent handshake. */
    predicate Reached(now: int, handshake: int, probe: bool)
      reads this
    {
      handshake != -3
      && if |configs| > 1 then probe
         else handshake > 0 && now / 1000 >= handshake && now / 1000 - handshake <= handshakeStaleSeconds
    }

    /** Whether a turn without a connection counts as a failure. */
    predicate Counted(handshake: int)
      reads this
    {
      handshake != -3 && (|configs| > 1 || handshake >= 0)
    }

    /** The first half of a turn of the polling thread: the connection is sampled;
        `handshake` is what getLastHandshake says and `probe` whether a connection
        through the tunnel works.  A failure that counts is then checked. */
    method Sample(now: int, handshake: int, probe: bool) returns (failed: bool)
      requires Valid() && now >= clock && now >= 0
      modifies this`failures, this`log, this`clock
      ensures Valid() && clock == now && (old(Safe(log)) ==> Safe(log))
      ensures failed == (Counted(handshake) && !Reached(now, handshake, probe))
      ensures log == old(log) + if Counted(handshake) || Reached(now, handshake, probe)
                                then [Sampled(Reached(now, handshake, probe))] else []
      ensures failures == if failed then old(failures) + 1
                          else if Reached(now, handshake, probe) then 0 else old(failures)
    {
      hide Safe, Single, InFlight, Streak, Distinct, LastSuccess;
      clock := now;
      if handshake == -3 {
        return false;
      }
      var seconds := now / 1000;
      var recent := handshake > 0 && seconds >= handshake && seconds - handshake <= handshakeStaleSeconds;
      var configured := |configs| > 1;
      var reachable := if configured then probe else recent;
      failed := false;
      if reachable {
        NoteIsSingle(log, Sampled(true));
        KeepsLast(log, Sampled(true), lastSwitchMillis);
        log := log + [Sampled(true)];
        failures := 0;
      } else if configured || handshake >= 0 {
        NoteIsSingle(log, Sampled(false));
        KeepsLast(log, Sampled(false), lastSwitchMillis);
        log := log + [Sampled(false)];
        failures := failures + 1;
        failed := true;
      }
    }

    /** One turn of the polling thread when nothing happens between the check and
        the schedule, as with one poller. */
    method Poll(now: int, handshake: int, probe: bool, tunnel: bool) returns (stop: bool)
      requires Valid() && now >= clock && now >= 0
      modifies this`failures, this`switching, this`selected, this`selectedConfig, this`log, this`clock
      ensures Valid() && clock == now && (old(Safe(log)) ==> Safe(log))
      ensures Counted(handshake) || Reached(now, handshake, probe) ==>
        var sampled := old(log) + [Sampled(Reached(now, handshake, probe))];
        if tunnel && !Reached(now, handshake, probe) && old(!switching && failures + 1 >= failureSamples)
           && |configs| >= 2 && now - lastSwitchMillis >= 1000 * switchCooldownSeconds
        then && stop && switching && FirstOther()
             && log == sampled
                       + [Started(now, selected, activeServer, |configs|, failureSamples, switchCooldownSeconds)]
        else !stop && log == sampled
      ensures !(stop && handshake != -3) ==>
        switching == old(switching) && selected == old(selected) && selectedConfig == old(selectedConfig)
      ensures failures == if Reached(now, handshake, probe) then 0
                          else if Counted(handshake) then old(failures) + 1 else old(failures)
      ensures !Counted(handshake) && !Reached(now, handshake, probe) ==> log == old(log) && stop == (handshake == -3)
    {
      hide Safe, Single, InFlight, Streak, LastSuccess;
      if handshake == -3 {
        clock := now;
        return true;
      }
      stop := false;
      var failed := Sample(now, handshake, probe);
      if failed && ShouldSchedule(now) {
        assert configs[0].0 != configs[1].0;
        stop := Schedule(now, tunnel);
      }
    }

    /** The end of the switching thread: only a success counts as a switch. */
    method Finish(now: int, succeeds: bool)
      requires Valid() && now >= clock && switching
      modifies this
      ensures Valid() && clock == now && !switching && (old(Safe(log)) ==> Safe(log))
      ensures selected == old(selected) && selectedConfig == old(selectedConfig)
      ensures configs == old(configs) && lastSwitchMillis == if succeeds then now else old(lastSwitchMillis)
      ensures failureSamples == old(failureSamples) && switchCooldownSeconds == old(switchCooldownSeconds)
      ensures handshakeStaleSeconds == old(handshakeStaleSeconds) && primaryServer == old(primaryServer)
      ensures activeServer == if succeeds then old(selected) else old(activeServer)
      ensures failures == if succeeds then 0 else old(failures)
      ensures log == old(log) + [if succeeds then Succeeded(now) else Failed(now)]
    {
      hide Safe, Single, InFlight, Streak, Distinct, LastSuccess;
      clock := now;
      var e := if succeeds then Succeeded(now) else Failed(now);
      if succeeds {
        SuccessIsLast(log, lastSwitchMillis, now);
      } else {
        KeepsLast(log, e, lastSwitchMillis);
      }
      if succeeds {
        activeServer, lastSwitchMillis, failures := selected, now, 0;
      }
      EndIsSingle(log, e);
      log := log + [e];
      switching := false;
    }
  }

  /** A step that can be taken now. */
  predicate Enabled(s: Step, clock: int, switching: bool) {
    match s
    case Configure(_, _, configs, _, _, _) => Distinct(configs)
    case SetActive(_) => true
    case Poll(now, _, _, _) => now >= clock && now >= 0
    case Late(at, _) => at >= clock
    case Finish(at, _) => at >= clock && switching
  }

  predicate Timed(s: Step) {
    s.Poll? || s.Late? || s.Finish?
  }

  function TimeOf(s: Step): int {
    match s
    case Poll(now, _, _, _) => now
    case Late(at, _) => at
    case Finish(at, _) => at
    case _ => 0
  }

  /** The clock does not run backwards. */
  ghost predicate InTime(steps: seq<Step>) {
    (forall i :: 0 <= i < |steps| && Timed(steps[i]) ==> TimeOf(steps[i]) >= 0)
    && forall i, j :: 0 <= i < j < |steps| && Timed(steps[i]) && Timed(steps[j]) ==>
         TimeOf(steps[i]) <= TimeOf(steps[j])
  }

  /** Every history of the failover: one switch at a time, to another server, even
      when a poller schedules late, on a check made before other steps; and a safe
      history when none does.  Steps that cannot be taken are skipped;
      the end of a switch can, and nothing is under way after it. */
  method Run(steps: seq<Step>) returns (log: seq<Event>)
    ensures Single(log)
    ensures (forall i :: 0 <= i < |steps| ==> !steps[i].Late?) ==> Safe(log)
    ensures steps != [] && steps[|steps| - 1].Configure? && Distinct(steps[|steps| - 1].configs) ==>
      log != [] && log[|log| - 1] == Configured
    ensures steps != [] && steps[|steps| - 1].Finish? && InTime(steps) ==> InFlight(log) == 0
  {
    hide Safe, Single;
    var s := new Switcher();
    for i := 0 to |steps|
      invariant s.Valid() && fresh(s)
      invariant (forall i :: 0 <= i < |steps| ==> !steps[i].Late?) ==> Safe(s.log)
      invariant i > 0 && steps[i - 1].Configure? && Distinct(steps[i - 1].configs) ==>
        s.log != [] && s.log[|s.log| - 1] == Configured
      invariant i > 0 && steps[i - 1].Finish? && InTime(steps) ==> InFlight(s.log) == 0
      invariant InTime(steps) ==> forall j :: i <= j < |steps| ==> s.clock <= TimeOf(steps[j]) || !Timed(steps[j])
    {
      NoneOrOne(s.log);
      if Enabled(steps[i], s.clock, s.switching) {
        match steps[i]
        case Configure(primary, active, configs, samples, stale, cooldown) =>
          s.Configure(primary, active, configs, samples, stale, cooldown);
        case SetActive(server) => s.SetActive(server);
        case Poll(now, handshake, probe, tunnel) =>
          var stop := s.Poll(now, handshake, probe, tunnel);
        case Late(at, tunnel) =>
          var scheduled := s.Schedule(at, tunnel);
        case Finish(at, succeeds) => s.Finish(at, succeeds);
      }
    }
    log := s.log;
  }

  /** Two pollers can defeat the cooldown, from every state in which a switch is
      due: both check, the second schedules and succeeds, and the first schedules
      on its old check, at the same instant. */
  method StaleCheck(s: Switcher, now: int)
    requires s.Valid() && Safe(s.log) && s.ShouldSchedule(now) && now >= s.clock
    modifies s
    ensures s.Valid() && Single(s.log) && !Safe(s.log)
    ensures |s.log| == |old(s.log)| + 3 && s.log[..|old(s.log)|] == old(s.log)
    ensures s.log[|old(s.log)|].Started? && s.log[|old(s.log)| + 1] == Succeeded(now)
    ensures s.log[|old(s.log)| + 2].Started?
  {
    hide Safe, Single, InFlight, Streak, LastSuccess;
    assert s.configs[0].0 != s.configs[1].0;
    var second := s.Schedule(now, true);
    s.Finish(now, true);
    ghost var log := s.log;
    assert log[|log| - 1] == Succeeded(now);
    var first := s.Schedule(now, true);
    assert first;
  }

  /** And such states are reached: two servers and two failed samples do. */
  method DueForSwitch(a: string, b: string, c: Config, now: int) returns (s: Switcher)
    requires a != b && now >= 60000
    ensures fresh(s) && s.Valid() && Safe(s.log) && s.ShouldSchedule(now) && now >= s.clock
    ensures s.log == [Configured, Sampled(false), Sampled(false)]
  {
    hide Safe, Single, InFlight, Streak, LastSuccess;
    s := new Switcher();
    s.Configure(a, a, [(a, c), (b, c)], 2, 60, 60);
    var first := s.Sample(now, 0, false);
    var second := s.Sample(now, 0, false);
  }
}
