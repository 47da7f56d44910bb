/** What one step of the WiFi lifecycle can and cannot do, as flat relations between the context before
    and after. Runs are reasoned about through these relations only. */
module WiFiSteps {
  import opened Machine
  import opened WiFiModel

  // The CONNECTING budget: how it is anchored, and what leaving for AP mode demands of it.
  ghost predicate BudgetStep(c: Context, e: Event, c': Context) {
    && (c'.state.Connecting? && !c'.reconnectPending ==>
          || c'.connectStartTime == Millis(e.at)
          || (c.state.Connecting? && !c.reconnectPending && c'.connectStartTime == c.connectStartTime))
    && (c.state.Connecting? && c'.state.IsAp() && !c.pendingAuthFail ==>
          !c.reconnectPending && Sub32(Millis(e.at), c.connectStartTime) > 30000)
  }

  // The documented retry cadence: the first five attempts at once, then one per 5 s.
  predicate Due(c: Context, e: Event) {
    c.reconnectAttempts < 5 || Sub32(Millis(e.at), c.lastRetryMs) >= 5000
  }

  // The retry clock and the attempt counter.
  ghost predicate RetryStep(c: Context, e: Event, c': Context) {
    !e.Drop? && !EntersConnected(c, c') ==>
      || (c'.reconnectAttempts == c.reconnectAttempts + 1 && e.Tick?
          && Due(c, e) && c'.lastRetryMs == Millis(e.at))
      || (c'.reconnectAttempts == c.reconnectAttempts
          && (c'.lastRetryMs == c.lastRetryMs || c'.lastRetryMs == Millis(e.at)))
  }

  // The AP-mode recovery timer.
  ghost predicate ApStep(c: Context, e: Event, c': Context) {
    && (!c.state.IsAp() && c'.state.IsAp() ==> c'.apModeStaRetryMs == 0)
    && (c.state.IsAp() ==> c'.state.IsAp() || c'.state.Connecting? || c'.state.Connected?)
    && (c.state.IsAp() && c'.state.IsAp() ==>
          || c'.apModeStaRetryMs == c.apModeStaRetryMs
          || (c.apModeStaRetryMs == 0 && c'.apModeStaRetryMs == Millis(e.at)))
    && (c.state.IsAp() && c'.state.Connecting? ==>
          c.apModeStaRetryMs != 0 && Sub32(Millis(e.at), c.apModeStaRetryMs) >= 300000)
    && ((c.state.ApAuthFail? || c.state.ApNoAp?) && !c.pendingAuthFail && !e.Drop? ==>
          && !c'.pendingAuthFail
          && (if e.Tick? && c.apModeStaRetryMs != 0
                 && Sub32(Millis(e.at), c.apModeStaRetryMs) >= 300000
              then c'.state.Connecting?
              else c'.state == c.state
                   && c'.apModeStaRetryMs == if e.Tick? && c.apModeStaRetryMs == 0 then Millis(e.at)
                                             else c.apModeStaRetryMs))
  }

  predicate EntersConnected(c: Context, c': Context) {
    !c.state.Connected? && c'.state.Connected?
  }

  // The recorded IP, the drop stamp and the TCP-restart flag.
  ghost predicate RebindStep(c: Context, e: Event, c': Context) {
    && (EntersConnected(c, c') ==>
          && e.Tick? && c'.lastConnectedIp == e.ipAtEntry
          && c'.tcpServerNeedsRestart
             == (c.tcpServerNeedsRestart || MustRebind(e.ip, c.lastConnectedIp, OutageMs(c, Millis(e.at)))))
    && (!EntersConnected(c, c') ==> c'.lastConnectedIp == c.lastConnectedIp)
    && c'.disconnectStartMs == (if c.state.Connected? && e.Tick? && !c'.state.Connected? then Millis(e.at)
                                else c.disconnectStartMs)
    && (e.Tick? && !c'.state.Connected? ==> c'.tcpServerNeedsRestart == c.tcpServerNeedsRestart)
    && (e.Drop? ==>
          c'.tcpServerNeedsRestart == (!IsAuthFailure(e.reason) && (c.tcpServerNeedsRestart || c.state.Connected?)))
    && (e.ClearRestart? ==> !c'.tcpServerNeedsRestart)
  }

  // The recorded disconnect reason, and what arms a campaign.
  ghost predicate ReasonStep(c: Context, e: Event, c': Context) {
    && c'.lastDisconnectReason == (if e.Drop? then e.reason else c.lastDisconnectReason)
    && (!c.pendingAuthFail && c'.pendingAuthFail ==> e.Drop? && IsAuthFailure(e.reason))
  }

  // What every reachable context satisfies: CONNECTED leaves nothing of a campaign or reconnect behind, and
  // a campaign ends only by connecting or by running out of passes.
  ghost predicate Invariant(c: Context) {
    && c.strategyIndex < STRATEGY_COUNT
    && (!c.pendingAuthFail ==> c.strategyLoop == 0 || c.strategyLoop >= LOOP_COUNT)
    && (c.state.Connected? ==>
          && !c.pendingAuthFail && c.strategyIndex == 0 && c.strategyLoop == 0
          && c.reconnectAttempts == 0 && !c.reconnectPending)
  }

  ghost predicate Summary(c: Context, e: Event, c': Context) {
    Invariant(c) ==>
      && Invariant(c') && BudgetStep(c, e, c') && RetryStep(c, e, c')
      && ApStep(c, e, c') && RebindStep(c, e, c') && ReasonStep(c, e, c')
  }

  // One lemma per branch of the step; the last lemma dispatches.

  lemma SummariseSuccess(b: Baked, c: Context, e: Event)
    requires Invariant(c) && e.Tick? && e.status == WL_CONNECTED && (c.pendingAuthFail || c.state.Connecting?)
    ensures Summary(c, e, Next(b, c, e))
  {
    var c1 := if c.pendingAuthFail then c else Reanchored(c, Millis(e.at));
    assert Next(b, c, e) == Apply(EnterConnected(c1, e), e.ipAtEntry).ctx;
  }

  lemma SummariseCampaignRetry(b: Baked, c: Context, e: Event)
    requires Invariant(c) && e.Tick? && e.status != WL_CONNECTED && c.pendingAuthFail
    requires RetryDue(Millis(e.at), c.lastRetryMs, c.reconnectAttempts)
    ensures Summary(c, e, Next(b, c, e))
  {
    var c' := Advanced(c, Millis(e.at));
    assert c'.strategyLoop < LOOP_COUNT ==> Next(b, c, e) == c';
  }

  lemma SummariseCampaign(b: Baked, c: Context, e: Event)
    requires Invariant(c) && e.Tick? && e.status != WL_CONNECTED && c.pendingAuthFail
    ensures Summary(c, e, Next(b, c, e))
  {
    if RetryDue(Millis(e.at), c.lastRetryMs, c.reconnectAttempts) {
      SummariseCampaignRetry(b, c, e);
    } else {
      assert Next(b, c, e) == c;
    }
  }

  lemma SummariseConnectFailed(b: Baked, c: Context, e: Event)
    requires Invariant(c) && e.Tick? && !c.pendingAuthFail && c.state.Connecting?
    requires e.status == WL_CONNECT_FAILED || e.status == WL_NO_SSID
    ensures Summary(c, e, Next(b, c, e))
  {
    var c1 := Reanchored(c, Millis(e.at));
    var failed := c1.(escalatedToApReason := c1.lastDisconnectReason, apModeStaRetryMs := 0);
    assert Next(b, c, e)
        in {c1, Retried(c1, Millis(e.at)), failed.(state := ApNoAp), failed.(state := ApAuthFail)};
  }

  lemma SummariseWaiting(b: Baked, c: Context, e: Event)
    requires Invariant(c) && e.Tick? && !c.pendingAuthFail && c.state.Connecting?
    requires e.status != WL_CONNECTED && e.status != WL_CONNECT_FAILED && e.status != WL_NO_SSID
    ensures Summary(c, e, Next(b, c, e))
  {
    var c1 := Reanchored(c, Millis(e.at));
    var failed := c1.(escalatedToApReason := c1.lastDisconnectReason, state := ApAuthFail, apModeStaRetryMs := 0);
    assert Next(b, c, e)
        in {c1, Retried(c1, Millis(e.at)), failed, c1.(state := ApDefault, apModeStaRetryMs := 0)};
  }

  lemma SummariseDisconnected(b: Baked, c: Context, e: Event)
    requires Invariant(c) && e.Tick? && !c.pendingAuthFail && c.state.Disconnected?
    ensures Summary(c, e, Next(b, c, e))
  {
    var started := StampStart(c, Millis(e.at)).(state := Connecting);
    assert Next(b, c, e) in {c, started, c.(state := ApDefault, apModeStaRetryMs := 0)};
  }

  lemma SummariseConnected(b: Baked, c: Context, e: Event)
    requires Invariant(c) && e.Tick? && !c.pendingAuthFail && c.state.Connected?
    ensures Summary(c, e, Next(b, c, e))
  {
  }

  lemma SummariseAp(b: Baked, c: Context, e: Event)
    requires Invariant(c) && e.Tick? && !c.pendingAuthFail && c.state.IsAp()
    ensures Summary(c, e, Next(b, c, e))
  {
  }

  lemma SummariseEvent(b: Baked, c: Context, e: Event)
    requires Invariant(c) && !e.Tick?
    ensures Summary(c, e, Next(b, c, e))
  {
  }

  /** Every step keeps the reachability invariant and obeys all five relations. */
  lemma Summarise(b: Baked, c: Context, e: Event)
    ensures Summary(c, e, Next(b, c, e))
  {
    if Invariant(c) {
      if !e.Tick? {
        SummariseEvent(b, c, e);
      } else if e.status == WL_CONNECTED && (c.pendingAuthFail || c.state.Connecting?) {
        SummariseSuccess(b, c, e);
      } else if c.pendingAuthFail {
        SummariseCampaign(b, c, e);
      } else if c.state.Connecting? {
        if e.status == WL_CONNECT_FAILED || e.status == WL_NO_SSID {
          SummariseConnectFailed(b, c, e);
        } else {
          SummariseWaiting(b, c, e);
        }
      } else if c.state.Disconnected? {
        SummariseDisconnected(b, c, e);
      } else if c.state.Connected? {
        SummariseConnected(b, c, e);
      } else {
        SummariseAp(b, c, e);
      }
    }
  }
}
