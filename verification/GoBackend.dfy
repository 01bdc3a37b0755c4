/** The userspace backend: GoBackend.java and the table of tunnels that the Go
    library keeps on its side, api-android.go. */
module GoTunnels {
  import opened MachineInts

  datatype Tunnel = Tunnel(name: string)
  datatype Config = Config(text: string)

  /** Tunnel.State. */
  datatype State = UP | DOWN | TOGGLE

  const MAX_INT32: int32 := 0x7fff_ffff

  /** A running device, with the tunnel and settings it was started for. */
  datatype TunnelHandle = TunnelHandle(tunnel: Tunnel, settings: Config)

  /** The global map tunnelHandles. */
  class HandleTable {
    var handles: map<int32, TunnelHandle>

    constructor ()
      ensures handles == map[]
    {
      handles := map[];
    }

    /** awgTurnOn.  `works` says whether the device can be created, configured and
        brought up.  The tunnel gets the smallest free handle. */
    method TurnOn(tunnel: Tunnel, settings: Config, works: bool) returns (h: int32)
      modifies this
      ensures h == -1 <==> !works || forall i: int32 :: 0 <= i < MAX_INT32 ==> i in old(handles)
      ensures h == -1 ==> handles == old(handles)
      ensures h != -1 ==> 0 <= h < MAX_INT32 && h !in old(handles)
      ensures h != -1 ==> forall i: int32 :: 0 <= i < h ==> i in old(handles)
      ensures h != -1 ==> handles == old(handles)[h := TunnelHandle(tunnel, settings)]
    {
      if !works {
        return -1;
      }
      var i: int32 := 0;
      while i < MAX_INT32 && i in handles
        invariant 0 <= i <= MAX_INT32 && forall j: int32 :: 0 <= j < i ==> j in handles
        decreases MAX_INT32 as int - i as int
      {
        i := i + 1;
      }
      if i == MAX_INT32 {
        return -1;
      }
      handles := handles[i := TunnelHandle(tunnel, settings)];
      return i;
    }

    /** awgTurnOff. */
    method TurnOff(h: int32)
      modifies this
      ensures handles == old(handles) - {h}
    {
      if h !in handles {
        return;
      }
      handles := handles - {h};
    }
  }
}

module GoBackend {
  import opened Options
  import opened MachineInts
  import opened GoTunnels

  datatype Reason =
    | TUNNEL_MISSING_CONFIG | VPN_NOT_AUTHORIZED | UNABLE_TO_START_VPN
    | DNS_RESOLUTION_FAILURE | TUN_CREATION_ERROR | GO_ACTIVATION_ERROR_CODE

  /** What setState throws: a BackendException, or what a call of the Android
      tunnel builder throws, as for an application that is not installed. */
  datatype Error = BackendException(reason: Reason) | BuilderException

  datatype Result = Done(state: State) | Thrown(error: Error)

  /** What the platform does during one attempt to bring a tunnel up. */
  datatype Attempt = Attempt(authorized: bool, started: bool, resolved: bool, built: bool, established: bool,
                             activated: bool)
  {
    predicate Works() {
      authorized && started && resolved && built && established && activated
    }
  }

  /** The first thing that stands in the way of bringing a tunnel up. */
  function Obstacle(config: Option<Config>, a: Attempt): (r: Option<Error>)
    ensures r.None? <==> config.Some? && a.Works()
  {
    if config.None? then Some(BackendException(TUNNEL_MISSING_CONFIG))
    else if !a.authorized then Some(BackendException(VPN_NOT_AUTHORIZED))
    else if !a.started then Some(BackendException(UNABLE_TO_START_VPN))
    else if !a.resolved then Some(BackendException(DNS_RESOLUTION_FAILURE))
    else if !a.built then Some(BuilderException)
    else if !a.established then Some(BackendException(TUN_CREATION_ERROR))
    else if !a.activated then Some(BackendException(GO_ACTIVATION_ERROR_CODE))
    else None
  }

  /** The state a tunnel has last been told. */
  function Told(notices: seq<(Tunnel, State)>, t: Tunnel): State {
    if notices == [] then DOWN
    else if notices[|notices| - 1].0 == t then notices[|notices| - 1].1
    else Told(notices[..|notices| - 1], t)
  }

  lemma ToldNext(notices: seq<(Tunnel, State)>, u: Tunnel, s: State)
    ensures forall t :: Told(notices + [(u, s)], t) == if t == u then s else Told(notices, t)
  {
    assert (notices + [(u, s)])[..|notices|] == notices;
  }

  datatype Event =
    | SetState(tunnel: Tunnel, state: State, config: Option<Config>, first: Attempt, second: Attempt)
    | Destroy

  class Backend {
    var currentTunnel: Option<Tunnel>
    var currentConfig: Option<Config>
    var currentTunnelHandle: int32
    var owned: bool
    var notices: seq<(Tunnel, State)>
    const table: HandleTable

    /** No handle, no tunnel and no configuration coincide; the Go table holds
        exactly the current handle, running the current tunnel with the current
        configuration; and the service knows its owner while a tunnel runs. */
    ghost predicate Valid()
      reads this, table
    {
      && (currentTunnelHandle == -1 <==> currentTunnel.None?)
      && (currentTunnelHandle == -1 <==> currentConfig.None?)
      && (currentTunnelHandle == -1 ==> table.handles == map[])
      && (currentTunnelHandle != -1 ==>
            0 <= currentTunnelHandle < MAX_INT32 && owned
            && table.handles == map[currentTunnelHandle := TunnelHandle(currentTunnel.value, currentConfig.value)])
    }

    /** Every tunnel was last told the state it is in. */
    ghost predicate Notified()
      reads this
    {
      forall t :: Told(notices, t) == if currentTunnel == Some(t) then UP else DOWN
    }

    constructor ()
      ensures Valid() && Notified() && currentTunnel == None && notices == [] && fresh(table)
    {
      currentTunnel, currentConfig, currentTunnelHandle, owned, notices := None, None, -1, false, [];
      table := new HandleTable();
    }

    function GetState(tunnel: Tunnel): State
      reads this
    {
      if currentTunnel == Some(tunnel) then UP else DOWN
    }

    /** The UP half of setStateInternal. */
    method BringUp(tunnel: Tunnel, config: Option<Config>, attempt: Attempt) returns (error: Option<Error>)
      requires Valid() && Notified() && currentTunnel == None
      modifies this, table
      ensures Valid() && Notified()
      ensures error == Obstacle(config, attempt)
      ensures error.None? ==> currentTunnel == Some(tunnel) && currentConfig == config
      ensures error.Some? ==> currentTunnel == None
      ensures notices == old(notices) + if error.None? then [(tunnel, UP)] else []
    {
      if config.None? {
        return Some(BackendException(TUNNEL_MISSING_CONFIG));
      }
      if !attempt.authorized {
        return Some(BackendException(VPN_NOT_AUTHORIZED));
      }
      if !attempt.started {
        return Some(BackendException(UNABLE_TO_START_VPN));
      }
      owned := true;
      if currentTunnelHandle != -1 {
        return None;
      }
      if !attempt.resolved {
        return Some(BackendException(DNS_RESOLUTION_FAILURE));
      }
      if !attempt.built {
        return Some(BuilderException);
      }
      if !attempt.established {
        return Some(BackendException(TUN_CREATION_ERROR));
      }
      assert 0 !in table.handles;
      currentTunnelHandle := table.TurnOn(tunnel, config.value, attempt.activated);
      if currentTunnelHandle < 0 {
        return Some(BackendException(GO_ACTIVATION_ERROR_CODE));
      }
      currentTunnel, currentConfig := Some(tunnel), config;
      ToldNext(notices, tunnel, UP);
      notices := notices + [(tunnel, UP)];
      return None;
    }

    /** The DOWN half of setStateInternal, on the current tunnel. */
    method TearDown(tunnel: Tunnel)
      requires Valid() && Notified() && currentTunnel == Some(tunnel)
      modifies this, table
      ensures Valid() && Notified() && currentTunnel == None
      ensures notices == old(notices) + [(tunnel, DOWN)]
    {
      if currentTunnelHandle == -1 {
        return;
      }
      var handleToClose := currentTunnelHandle;
      currentTunnel, currentTunnelHandle, currentConfig := None, -1, None;
      table.TurnOff(handleToClose);
      ToldNext(notices, tunnel, DOWN);
      notices := notices + [(tunnel, DOWN)];
    }

    /** The state asked for, with TOGGLE resolved. */
    ghost function Asked(tunnel: Tunnel, state: State): State
      reads this
    {
      if state != TOGGLE then state else if GetState(tunnel) == UP then DOWN else UP
    }

    /** setState.  A failure leaves either what was there before or nothing at
        all, and nothing only when restoring fails too. */
    method SetState(tunnel: Tunnel, state: State, config: Option<Config>, first: Attempt, second: Attempt)
      returns (r: Result)
      requires Valid() && Notified()
      modifies this, table
      ensures Valid() && Notified()
      ensures r.Done? ==> r.state == GetState(tunnel) == old(Asked(tunnel, state))
      ensures r.Done? && r.state == UP ==> currentConfig == config
      ensures r.Done? && r.state == DOWN ==>
        (currentTunnel, currentConfig)
        == if old(currentTunnel) == Some(tunnel) then (None, None) else old((currentTunnel, currentConfig))
      ensures r.Thrown? <==> old(Asked(tunnel, state)) == UP && (config.None? || !first.Works())
                             && !old(currentTunnel == Some(tunnel) && currentConfig == config)
      ensures r.Thrown? ==>
        Some(r.error) == if old(currentTunnel).Some? && !second.Works() then Obstacle(old(currentConfig), second)
                          else Obstacle(config, first)
      ensures r.Thrown? ==>
        (currentTunnel, currentConfig) == if second.Works() then old((currentTunnel, currentConfig)) else (None, None)
      ensures old(Asked(tunnel, state)) == UP && !old(currentTunnel == Some(tunnel) && currentConfig == config) ==>
        notices == old(notices) + (if old(currentTunnel).Some? then [(old(currentTunnel).value, DOWN)] else [])
                   + if r.Done? then [(tunnel, UP)]
                     else if old(currentTunnel).Some? && second.Works() then [(old(currentTunnel).value, UP)] else []
      ensures old(Asked(tunnel, state)) == DOWN ==>
        notices == old(notices) + if old(currentTunnel) == Some(tunnel) then [(tunnel, DOWN)] else []
      ensures old(Asked(tunnel, state) == UP && currentTunnel == Some(tunnel) && currentConfig == config) ==>
        r == Done(UP) && notices == old(notices) && currentTunnelHandle == old(currentTunnelHandle)
    {
      hide Told, Obstacle;
      var originalState := GetState(tunnel);
      var wanted := state;
      if wanted == TOGGLE {
        wanted := if originalState == UP then DOWN else UP;
      }
      if wanted == originalState && currentTunnel == Some(tunnel) && currentConfig == config {
        return Done(originalState);
      }
      if wanted == UP {
        var originalConfig, originalTunnel := currentConfig, currentTunnel;
        if currentTunnel.Some? {
          TearDown(currentTunnel.value);
        }
        var error := BringUp(tunnel, config, first);
        if error.Some? {
          if originalTunnel.Some? {
            var again := BringUp(originalTunnel.value, originalConfig, second);
            if again.Some? {
              return Thrown(again.value);
            }
          }
          return Thrown(error.value);
        }
      } else if wanted == DOWN && currentTunnel == Some(tunnel) {
        TearDown(tunnel);
      }
      return Done(GetState(tunnel));
    }

    /** VpnService.onDestroy. */
    method OnDestroy()
      requires Valid() && Notified()
      modifies this, table
      ensures Valid() && Notified() && currentTunnel == None && !owned
      ensures notices == old(notices) + if old(currentTunnel).Some? then [(old(currentTunnel).value, DOWN)] else []
    {
      if owned && currentTunnel.Some? {
        var tunnel := currentTunnel.value;
        if currentTunnelHandle != -1 {
          table.TurnOff(currentTunnelHandle);
        }
        currentTunnel, currentTunnelHandle, currentConfig := None, -1, None;
        ToldNext(notices, tunnel, DOWN);
        notices := notices + [(tunnel, DOWN)];
      }
      owned := false;
    }
  }

  /** Every run of the backend keeps its two sides in agreement. */
  method Run(events: seq<Event>) returns (b: Backend, results: seq<Result>)
    ensures b.Valid() && b.Notified()
    ensures |events| > 0 && events[|events| - 1].Destroy? ==> b.currentTunnel == None && b.table.handles == map[]
    ensures |events| > 0 && events[|events| - 1].SetState? ==>
      |results| > 0 && (results[|results| - 1].Done? ==>
                          b.GetState(events[|events| - 1].tunnel) == results[|results| - 1].state
                          && (events[|events| - 1].state != TOGGLE ==>
                                results[|results| - 1].state == events[|events| - 1].state))
  {
    b := new Backend();
    results := [];
    for i := 0 to |events|
      invariant b.Valid() && b.Notified() && fresh(b) && fresh(b.table)
      invariant i > 0 && events[i - 1].Destroy? ==> b.currentTunnel == None && b.table.handles == map[]
      invariant i > 0 && events[i - 1].SetState? ==>
        |results| > 0 && (results[|results| - 1].Done? ==>
                            b.GetState(events[i - 1].tunnel) == results[|results| - 1].state
                            && (events[i - 1].state != TOGGLE ==> results[|results| - 1].state == events[i - 1].state))
    {
      match events[i]
      case Destroy => b.OnDestroy();
      case SetState(tunnel, state, config, first, second) =>
        var r := b.SetState(tunnel, state, config, first, second);
        results := results + [r];
    }
  }
}
