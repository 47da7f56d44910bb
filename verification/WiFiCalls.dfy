/** What the manager tells the radio and its callbacks in one step: which credentials, and when the access point,
    the TCP restart and the network clock are touched. */
module WiFiCalls {
  import opened Machine
  import opened WiFiModel
  import opened WiFiSteps
  import opened Wrappers

  predicate HasStoredPair(nvs: Nvs) {
    nvs.hasCount && nvs.ssid != "" && nvs.pass != ""
  }

  // A complete stored pair wins over the baked-in one.
  predicate RightPair(ssid: string, pass: string, nvs: Nvs, b: Baked) {
    if HasStoredPair(nvs) then ssid == nvs.ssid && pass == nvs.pass
    else b.ssid == Some(ssid) && b.pass == Some(pass)
  }

  // A call a state handler may make: an association with the right pair, or no association and no callback.
  predicate PlainCall(x: Effect, nvs: Nvs, b: Baked) {
    (x.Begin? ==> RightPair(x.ssid, x.pass, nvs, b)) && !x.TcpRestart? && !x.NtpInit? && !x.SoftAp?
  }

  predicate PlainCalls(fx: seq<Effect>, nvs: Nvs, b: Baked) {
    forall i :: 0 <= i < |fx| ==> PlainCall(fx[i], nvs, b)
  }

  // What a handler decides: where to go, and calls that are plain but for raising the access point.
  ghost predicate Decided(b: Baked, c: Context, nvs: Nvs, h: Handled) {
    && h.ctx.state == c.state
    && (h.next.next.Connected? ==> h.next.ntp || c.state.Connected?)
    && (h.next.ntp || h.next.tcpRestart ==> h.next.next.Connected?)
    && exists calls ::
         && PlainCalls(calls, nvs, b)
         && (if h.fx == calls then h.next.next.IsAp() ==> c.state.IsAp()
             else h.fx == calls + RAISE_AP && h.next.next.IsAp())
  }

  lemma DecidedPlain(b: Baked, c: Context, nvs: Nvs, h: Handled, calls: seq<Effect>)
    requires h.ctx.state == c.state && h.fx == calls && PlainCalls(calls, nvs, b)
    requires h.next.next.IsAp() ==> c.state.IsAp()
    requires h.next.next.Connected? ==> h.next.ntp || c.state.Connected?
    requires h.next.ntp || h.next.tcpRestart ==> h.next.next.Connected?
    ensures Decided(b, c, nvs, h)
  {
  }

  lemma DecidedAp(b: Baked, c: Context, nvs: Nvs, h: Handled, calls: seq<Effect>)
    requires h.ctx.state == c.state && h.fx == calls + RAISE_AP && PlainCalls(calls, nvs, b)
    requires h.next.next.IsAp() && !h.next.ntp && !h.next.tcpRestart
    ensures Decided(b, c, nvs, h)
  {
  }

  lemma BeginWithPlain(nvs: Nvs, b: Baked)
    ensures PlainCalls(BeginWith(nvs, b), nvs, b)
  {
  }

  lemma PlainAppend(x: seq<Effect>, y: seq<Effect>, nvs: Nvs, b: Baked)
    requires PlainCalls(x, nvs, b) && PlainCalls(y, nvs, b)
    ensures PlainCalls(x + y, nvs, b)
  {
  }

  lemma StrategyPlain(index: int, nvs: Nvs, b: Baked)
    ensures PlainCalls(StrategyEffects(index, nvs, b), nvs, b)
  {
  }

  lemma DecideDisconnected(b: Baked, c: Context, e: Event)
    requires e.Tick? && c.state.Disconnected?
    ensures Decided(b, c, e.nvs, WhenDisconnected(b, c, e))
  {
    var h := WhenDisconnected(b, c, e);
    if CredentialSource(e.nvs, b).NoCredentials? {
      assert h.fx == [] + RAISE_AP;
      DecidedAp(b, c, e.nvs, h, []);
    } else {
      DecidedPlain(b, c, e.nvs, h, h.fx);
    }
  }

  lemma DecideConnectFailed(b: Baked, c: Context, e: Event, duration: uint32)
    requires e.Tick?
    ensures Decided(b, c, e.nvs, ConnectFailed(b, c, e, duration))
  {
    var h := ConnectFailed(b, c, e, duration);
    BeginWithPlain(e.nvs, b);
    if CredentialSource(e.nvs, b).StoredNvs? && duration > CONNECT_TIMEOUT_MS {
      assert h.fx == [] + RAISE_AP;
      DecidedAp(b, c, e.nvs, h, []);
    } else {
      PlainAppend([Disconnect], BeginWith(e.nvs, b), e.nvs, b);
      DecidedPlain(b, c, e.nvs, h, h.fx);
    }
  }

  lemma DecideIdle(b: Baked, c: Context, e: Event)
    requires e.Tick?
    ensures Decided(b, c, e.nvs, IdleStatus(b, c, e))
  {
    BeginWithPlain(e.nvs, b);
    DecidedPlain(b, c, e.nvs, IdleStatus(b, c, e), IdleStatus(b, c, e).fx);
  }

  lemma DecideTimedOut(b: Baked, c: Context, e: Event)
    requires e.Tick? && c.state.Connecting?
    ensures Decided(b, c, e.nvs, TimedOut(b, c, e))
  {
    var h := TimedOut(b, c, e);
    if h.fx == RAISE_AP {
      assert h.fx == [] + RAISE_AP;
      DecidedAp(b, c, e.nvs, h, []);
    } else {
      DecidedPlain(b, c, e.nvs, h, []);
    }
  }

  lemma DecideEnter(b: Baked, c: Context, e: Event)
    requires e.Tick?
    ensures Decided(b, c, e.nvs, EnterConnected(c, e))
  {
    DecidedPlain(b, c, e.nvs, EnterConnected(c, e), [DiscoveryReset]);
  }

  lemma DecideConnecting(b: Baked, c: Context, e: Event)
    requires e.Tick? && c.state.Connecting?
    ensures Decided(b, c, e.nvs, WhenConnecting(b, c, e))
  {
    var c1 := Reanchored(c, Millis(e.at));
    var duration := Sub32(Millis(e.at), c1.connectStartTime);
    DecideEnter(b, c1, e);
    DecideConnectFailed(b, c1, e, duration);
    DecideIdle(b, c1, e);
    DecideTimedOut(b, c1, e);
    DecidedPlain(b, c1, e.nvs, Stay(c1), []);
  }

  lemma DecideAp(b: Baked, c: Context, e: Event)
    requires e.Tick? && c.state.IsAp()
    ensures Decided(b, c, e.nvs, WhenAp(b, c, e))
  {
    BeginWithPlain(e.nvs, b);
    PlainAppend([SetMode(1)], BeginWith(e.nvs, b), e.nvs, b);
    DecidedPlain(b, c, e.nvs, WhenAp(b, c, e), WhenAp(b, c, e).fx);
  }

  lemma DecideCampaign(b: Baked, c: Context, e: Event)
    requires e.Tick?
    ensures Decided(b, c, e.nvs, CampaignTick(b, c, e))
  {
    var h := CampaignTick(b, c, e);
    if e.status == WL_CONNECTED {
      DecideEnter(b, c, e);
    } else if !RetryDue(Millis(e.at), c.lastRetryMs, c.reconnectAttempts) {
      DecidedPlain(b, c, e.nvs, h, []);
    } else {
      var calls := StrategyEffects(c.strategyIndex, e.nvs, b);
      StrategyPlain(c.strategyIndex, e.nvs, b);
      if Advanced(c, Millis(e.at)).strategyLoop >= LOOP_COUNT {
        DecidedAp(b, c, e.nvs, h, calls);
      } else {
        DecidedPlain(b, c, e.nvs, h, calls);
      }
    }
  }

  lemma DecideTick(b: Baked, c: Context, e: Event)
    requires e.Tick?
    ensures Decided(b, c, e.nvs, OnTick(b, c, e))
  {
    if c.pendingAuthFail {
      DecideCampaign(b, c, e);
    } else {
      match c.state
      case Disconnected => DecideDisconnected(b, c, e);
      case Connecting => DecideConnecting(b, c, e);
      case Connected => DecidedPlain(b, c, e.nvs, WhenConnected(c, e), []);
      case _ => DecideAp(b, c, e);
    }
  }

  // Carrying a decision out adds the callbacks of entering CONNECTED, and nothing else.
  lemma ApplyCalls(b: Baked, c: Context, nvs: Nvs, h: Handled, ip: string)
    requires Decided(b, c, nvs, h)
    ensures CallsFit(b, c, nvs, Apply(h, ip))
  {
    var calls :| PlainCalls(calls, nvs, b) &&
      if h.fx == calls then h.next.next.IsAp() ==> c.state.IsAp()
      else h.fx == calls + RAISE_AP && h.next.next.IsAp();
    forall x | x in calls
      ensures PlainCall(x, nvs, b)
    {
      var i :| 0 <= i < |calls| && calls[i] == x;
    }
  }

  // The calls of one step fit the change of state.
  ghost predicate CallsFit(b: Baked, c: Context, nvs: Nvs, o: Outcome) {
    && (forall x :: x in o.fx && x.Begin? ==> RightPair(x.ssid, x.pass, nvs, b))
    && (!c.state.IsAp() && o.ctx.state.IsAp() ==> SoftAp in o.fx)
    && (SoftAp in o.fx ==> o.ctx.state.IsAp())
    && (NtpInit in o.fx <==> EntersConnected(c, o.ctx))
    && (TcpRestart in o.fx ==> EntersConnected(c, o.ctx) && o.ctx.tcpServerNeedsRestart)
  }

  /** On every tick, in every state: any association uses the stored pair if there is a complete one and the
      baked-in pair otherwise; the access point is raised whenever AP mode is entered and only on the way into
      it; the network clock is started exactly on entering CONNECTED; and the TCP restart is requested only
      there, with the flag up. */
  lemma CallsFollowState(b: Baked, c: Context, e: Event)
    requires e.Tick?
    ensures CallsFit(b, c, e.nvs, Step(b, c, e))
  {
    DecideTick(b, c, e);
    ApplyCalls(b, c, e.nvs, OnTick(b, c, e), e.ipAtEntry);
  }
}
