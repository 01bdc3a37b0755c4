/** The thread that scheduleFailover starts: it asks the backend for the selected
    configuration and records the outcome. */
module Switchover {
  import opened Options
  import opened GoTunnels
  import opened GoBackend
  import opened Failover

  /** The configuration of a server, if it has one. */
  function Lookup(configs: seq<(string, Config)>, server: string): (c: Option<Config>) {
    if configs == [] then None
    else if configs[0].0 == server then Some(configs[0].1)
    else Lookup(configs[1..], server)
  }

  lemma {:induction false} LookupListed(configs: seq<(string, Config)>, server: string, c: Config)
    requires Distinct(configs) && (server, c) in configs
    ensures Lookup(configs, server) == Some(c)
  {
    var i :| 0 <= i < |configs| && configs[i] == (server, c);
    if i > 0 {
      assert configs[0].0 != configs[i].0;
      assert configs[1..][i - 1] == configs[i];
      LookupListed(configs[1..], server, c);
    }
  }

  /** The backend runs the configuration of the server that is thought active. */
  ghost predicate InStep(b: Backend, s: Switcher)
    reads b, s
  {
    b.currentTunnel.Some? && b.currentConfig == Lookup(s.configs, s.activeServer)
  }

  /** A success leaves the tunnel running with the configuration of the new active
      server; a failure leaves the active server, and the old tunnel with its
      configuration or, if restoring it fails too, nothing. */
  method CompleteSwitch(b: Backend, s: Switcher, tunnel: Tunnel, first: Attempt, second: Attempt, now: int)
    returns (succeeds: bool)
    requires b.Valid() && b.Notified() && s.Valid() && s.switching && now >= s.clock
    modifies b, b.table, s
    ensures b.Valid() && b.Notified() && s.Valid() && !s.switching && (old(Safe(s.log)) ==> Safe(s.log))
    ensures s.configs == old(s.configs)
    ensures succeeds <==>
      first.Works() || old(b.currentTunnel == Some(tunnel) && b.currentConfig == Some(s.selectedConfig))
    ensures succeeds ==> b.currentTunnel == Some(tunnel) && b.currentConfig == Some(old(s.selectedConfig))
    ensures succeeds ==> s.activeServer == old(s.selected) && s.failures == 0 && s.lastSwitchMillis == now
    ensures succeeds && (old(s.selected), old(s.selectedConfig)) in old(s.configs) ==> InStep(b, s)
    ensures !succeeds ==> s.activeServer == old(s.activeServer) && s.lastSwitchMillis == old(s.lastSwitchMillis)
    ensures !succeeds && second.Works() ==>
      b.currentTunnel == old(b.currentTunnel) && b.currentConfig == old(b.currentConfig)
    ensures !succeeds && !second.Works() ==> b.currentTunnel == None && b.currentConfig == None
    ensures !succeeds && second.Works() && old(InStep(b, s)) ==> InStep(b, s)
  {
    hide Safe, Told;
    var r := b.SetState(tunnel, UP, Some(s.selectedConfig), first, second);
    succeeds := r.Done?;
    if succeeds && (s.selected, s.selectedConfig) in s.configs {
      LookupListed(s.configs, s.selected, s.selectedConfig);
    }
    s.Finish(now, succeeds);
  }

  /** A turn of the poller and the switch it starts, if nothing comes between: the
      switch goes to the first other server, and a success leaves the tunnel running
      with that server's own configuration. */
  method TurnAndSwitch(b: Backend, s: Switcher, tunnel: Tunnel, now: int, handshake: int, probe: bool,
                       first: Attempt, second: Attempt, later: int)
    returns (started: bool, succeeds: bool)
    requires b.Valid() && b.Notified() && s.Valid() && !s.switching && later >= now >= s.clock && now >= 0
    modifies b, b.table, s
    ensures b.Valid() && b.Notified() && s.Valid() && !s.switching && (old(Safe(s.log)) ==> Safe(s.log))
    ensures s.configs == old(s.configs)
    ensures started <==>
      && handshake != -3 && !probe && |s.configs| >= 2 && old(s.failures + 1 >= s.failureSamples)
      && now - old(s.lastSwitchMillis) >= 1000 * old(s.switchCooldownSeconds)
    ensures started && first.Works() ==> succeeds
    ensures succeeds ==> started && InStep(b, s) && b.currentTunnel == Some(tunnel)
    ensures succeeds ==>
      exists i :: 0 <= i < |s.configs| && s.configs[i] == (s.activeServer, b.currentConfig.value)
                  && s.activeServer != old(s.activeServer)
                  && forall k :: 0 <= k < i ==> s.configs[k].0 == old(s.activeServer)
    ensures !succeeds ==> s.activeServer == old(s.activeServer)
    ensures !started ==> b.currentTunnel == old(b.currentTunnel) && b.currentConfig == old(b.currentConfig)
  {
    hide Safe, Told;
    var stop := s.Poll(now, handshake, probe, true);
    started, succeeds := stop && handshake != -3, false;
    if started {
      succeeds := CompleteSwitch(b, s, tunnel, first, second, later);
    }
  }
}
