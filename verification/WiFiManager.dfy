/** The stateful WiFi manager: handlers and the auth campaign update the shared context in place.
    Every method is tied to the step relation of WiFiModel. */
module WiFiManagerImpl {
  import opened Machine
  import opened WiFiModel

  class WiFiManager {
    const baked: Baked

    // The connection context, field by field.
    var state: State
    var lastRetryMs: uint32
    var connectStartTime: uint32
    var lastDisconnectReason: int
    var tcpServerNeedsRestart: bool
    var escalatedToApReason: int
    var lastConnectedIp: string
    var reconnectPending: bool
    var disconnectStartMs: uint32
    var reconnectAttempts: nat
    var pendingAuthFail: bool
    var strategyIndex: nat
    var strategyLoop: nat
    var apModeStaRetryMs: uint32

    // Calls made so far on the radio and on the callbacks.
    var fx: seq<Effect>

    function View(): Context
      reads this
    {
      Context(state, lastRetryMs, connectStartTime, lastDisconnectReason, tcpServerNeedsRestart,
              escalatedToApReason, lastConnectedIp, reconnectPending, disconnectStartMs, reconnectAttempts,
              pendingAuthFail, strategyIndex, strategyLoop, apModeStaRetryMs)
    }

    // What a handler must have done: `h` describes the new context, the transition and the added calls.
    twostate predicate Did(h: Handled, t: Transition)
      reads this
    {
      View() == h.ctx && t == h.next && fx == old(fx) + h.fx
    }

    constructor (baked: Baked)
      ensures this.baked == baked && View() == INITIAL && fx == []
    {
      this.baked := baked;
      state, lastRetryMs, connectStartTime, lastDisconnectReason := Disconnected, 0, 0, 0;
      tcpServerNeedsRestart, escalatedToApReason, lastConnectedIp := false, 0, "";
      reconnectPending, disconnectStartMs, reconnectAttempts := false, 0, 0;
      pendingAuthFail, strategyIndex, strategyLoop, apModeStaRetryMs := false, 0, 0, 0;
      fx := [];
    }

    method ExecuteDisconnected(e: Event) returns (t: Transition)
      requires e.Tick?
      modifies this
      ensures Did(WhenDisconnected(baked, old(View()), e), t)
    {
      var now := Millis(e.at);
      t := Transition(state, false, false);
      match CredentialSource(e.nvs, baked)
      case StoredNvs =>
        if Load(e.nvs).Some? {
          fx := fx + [SetMode(1), SetHostname, Begin(e.nvs.ssid, e.nvs.pass)];
          connectStartTime := now;
          lastRetryMs := now;
          t := Transition(Connecting, false, false);
        }
      case BakedIn =>
        fx := fx + [SetMode(1), SetHostname, Begin(baked.ssid.value, baked.pass.value)];
        connectStartTime := now;
        lastRetryMs := now;
        t := Transition(Connecting, false, false);
      case NoCredentials =>
        fx := fx + RAISE_AP;
        t := Transition(ApDefault, false, false);
    }

    method HandleConnected(e: Event) returns (t: Transition)
      requires e.Tick?
      modifies this
      ensures Did(EnterConnected(old(View()), e), t)
    {
      var outageMs: uint32 := 0;
      if disconnectStartMs > 0 { outageMs := Sub32(Millis(e.at), disconnectStartMs); }
      var restartTcp := MustRebind(e.ip, lastConnectedIp, outageMs);
      fx := fx + [DiscoveryReset];
      pendingAuthFail := false;
      strategyIndex := 0;
      strategyLoop := 0;
      reconnectPending := false;
      reconnectAttempts := 0;
      t := Transition(Connected, restartTcp, true);
    }

    method HandleConnectFailed(e: Event, connectDuration: uint32) returns (t: Transition)
      requires e.Tick?
      modifies this
      ensures Did(ConnectFailed(baked, old(View()), e, connectDuration), t)
    {
      var source := CredentialSource(e.nvs, baked);
      if source.StoredNvs? && connectDuration > CONNECT_TIMEOUT_MS {
        fx := fx + [SetMode(2), SoftAp];
        escalatedToApReason := lastDisconnectReason;
        return Transition(if IsScanMiss(lastDisconnectReason) then ApNoAp else ApAuthFail, false, false);
      }
      if RetryDue(Millis(e.at), lastRetryMs, reconnectAttempts) {
        fx := fx + ([Disconnect] + BeginWith(e.nvs, baked));
        lastRetryMs := Millis(e.at);
        reconnectAttempts := reconnectAttempts + 1;
      }
      t := Transition(state, false, false);
    }

    method HandleIdleStatus(e: Event) returns (t: Transition)
      requires e.Tick?
      modifies this
      ensures Did(IdleStatus(baked, old(View()), e), t)
    {
      if RetryDue(Millis(e.at), lastRetryMs, reconnectAttempts) {
        fx := fx + BeginWith(e.nvs, baked);
        lastRetryMs := Millis(e.at);
        reconnectAttempts := reconnectAttempts + 1;
      }
      t := Transition(state, false, false);
    }

    method HandleInitialConnectTimeout(e: Event) returns (t: Transition)
      requires e.Tick?
      modifies this
      ensures Did(TimedOut(baked, old(View()), e), t)
    {
      var source := CredentialSource(e.nvs, baked);
      if source.StoredNvs? && IsAuthFailure(lastDisconnectReason) {
        fx := fx + [SetMode(2), SoftAp];
        escalatedToApReason := lastDisconnectReason;
        return Transition(ApAuthFail, false, false);
      }
      if source.NoCredentials? {
        fx := fx + [SetMode(2), SoftAp];
        return Transition(ApDefault, false, false);
      }
      t := Transition(Connecting, false, false);
    }

    method ExecuteConnecting(e: Event) returns (t: Transition)
      requires e.Tick?
      modifies this
      ensures Did(WhenConnecting(baked, old(View()), e), t)
    {
      if reconnectPending {
        connectStartTime := Millis(e.at);
        reconnectPending := false;
      }
      var connectDuration := Sub32(Millis(e.at), connectStartTime);
      if e.status == WL_CONNECTED {
        t := HandleConnected(e);
      } else if e.status == WL_CONNECT_FAILED || e.status == WL_NO_SSID {
        t := HandleConnectFailed(e, connectDuration);
      } else if e.status == WL_IDLE && !InitialTimeout(connectDuration) {
        t := HandleIdleStatus(e);
      } else if InitialTimeout(connectDuration) {
        t := HandleInitialConnectTimeout(e);
      } else {
        t := Transition(state, false, false);
      }
    }

    method ExecuteConnectedSta(e: Event) returns (t: Transition)
      requires e.Tick?
      modifies this
      ensures Did(WhenConnected(old(View()), e), t)
    {
      t := Transition(state, false, false);
      if e.status != WL_CONNECTED || e.ip == "0.0.0.0" {
        reconnectPending := true;
        disconnectStartMs := Millis(e.at);
        t := Transition(Connecting, false, false);
      }
    }

    // The first AP tick arms the retry timer; a tick a full interval later re-issues the association.
    method ExecuteConnectedAp(e: Event) returns (t: Transition)
      requires e.Tick?
      modifies this
      ensures Did(WhenAp(baked, old(View()), e), t)
    {
      var now := Millis(e.at);
      t := Transition(state, false, false);
      if state.ApDefault? {
        return;
      }
      if apModeStaRetryMs == 0 {
        apModeStaRetryMs := now;
        return;
      }
      if Sub32(now, apModeStaRetryMs) < AP_STA_RETRY_MS {
        return;
      }
      fx := fx + ([SetMode(1)] + BeginWith(e.nvs, baked));
      apModeStaRetryMs := now;
      connectStartTime := now;
      lastRetryMs := now;
      t := Transition(Connecting, false, false);
    }

    method AdvanceRotation(now: uint32)
      modifies this
      ensures View() == Advanced(old(View()), now) && fx == old(fx)
    {
      strategyIndex := strategyIndex + 1;
      if strategyIndex >= STRATEGY_COUNT {
        strategyIndex := 0;
        strategyLoop := strategyLoop + 1;
      }
      lastRetryMs := now;
      reconnectAttempts := reconnectAttempts + 1;
    }

    method RunAuthCampaign(e: Event) returns (t: Transition)
      requires e.Tick?
      modifies this
      ensures Did(CampaignTick(baked, old(View()), e), t)
    {
      if e.status == WL_CONNECTED {
        t := HandleConnected(e);
        return;
      }
      if !RetryDue(Millis(e.at), lastRetryMs, reconnectAttempts) {
        return Transition(state, false, false);
      }
      var strategy := StrategyEffects(strategyIndex, e.nvs, baked);
      fx := fx + strategy;
      AdvanceRotation(Millis(e.at));
      if strategyLoop >= LOOP_COUNT {
        fx := fx + RAISE_AP;
        assert fx == old(fx) + (strategy + RAISE_AP);
        pendingAuthFail := false;
        escalatedToApReason := lastDisconnectReason;
        return Transition(ApAuthFail, false, false);
      }
      t := Transition(state, false, false);
    }

    method ApplyStateTransition(t: Transition, ipAtEntry: string)
      modifies this
      ensures Outcome(View(), fx) == Apply(Handled(old(View()), t, old(fx)), ipAtEntry)
    {
      if t.next == state {
        return;
      }
      if t.next.Connected? && !state.Connected? {
        lastConnectedIp := ipAtEntry;
      }
      var from := state;
      state := t.next;
      if t.next.IsAp() && !from.IsAp() {
        apModeStaRetryMs := 0;
      }
      if t.tcpRestart {
        tcpServerNeedsRestart := true;
        fx := fx + [TcpRestart];
      }
      if t.ntp {
        fx := fx + [NtpInit];
      }
    }

    /** One pass of the main loop. */
    method Update(e: Event)
      requires e.Tick?
      modifies this
      ensures View() == Step(baked, old(View()), e).ctx
      ensures fx == old(fx) + Step(baked, old(View()), e).fx
    {
      var t: Transition;
      if pendingAuthFail {
        t := RunAuthCampaign(e);
      } else {
        match state
        case Disconnected => t := ExecuteDisconnected(e);
        case Connecting => t := ExecuteConnecting(e);
        case Connected => t := ExecuteConnectedSta(e);
        case _ => t := ExecuteConnectedAp(e);
      }
      ApplyStateTransition(t, e.ipAtEntry);
    }

    method EnterReconnecting()
      modifies this
      ensures View() == Reconnecting(old(View())) && fx == old(fx)
    {
      state := Connecting;
      lastRetryMs := 0;
      reconnectAttempts := 0;
      reconnectPending := true;
    }

    /** The radio's disconnect callback. It has no clock. */
    method OnDisconnected(e: Event)
      requires e.Drop?
      modifies this
      ensures View() == OnDrop(old(View()), e.reason) && fx == old(fx)
    {
      lastDisconnectReason := e.reason;
      if IsAuthFailure(e.reason) {
        pendingAuthFail := true;
        tcpServerNeedsRestart := false;
        if strategyLoop == 0 {
          strategyIndex := 0;
        }
        lastRetryMs := 0;
        if state.Connected? {
          EnterReconnecting();
        }
        return;
      }
      if state.Connected? {
        tcpServerNeedsRestart := true;
        EnterReconnecting();
      }
    }

    method ClearTcpServerRestartFlag(e: Event)
      requires e.ClearRestart?
      modifies this
      ensures View() == Step(baked, old(View()), e).ctx
      ensures fx == old(fx)
    {
      tcpServerNeedsRestart := false;
    }

    /** Whatever happens next, the manager takes exactly the model's step. */
    method Handle(e: Event)
      modifies this
      ensures View() == Next(baked, old(View()), e)
      ensures fx == old(fx) + Step(baked, old(View()), e).fx
    {
      if e.Tick? {
        Update(e);
      } else if e.Drop? {
        OnDisconnected(e);
      } else {
        ClearTcpServerRestartFlag(e);
      }
    }
  }
}
