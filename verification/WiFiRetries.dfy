/** When the manager acts: where each state leads, when an association attempt is made and with which calls,
    and how often attempts come while ticks keep coming. */
module WiFiRetries {
  import opened Machine
  import opened Wrappers
  import opened WiFiModel
  import opened WiFiSteps
  import opened WiFiRuns
  import opened WiFiCalls
  import opened WiFiEscalation

  // The association call a plain retry makes: the stored pair if complete, else the baked-in one, else none.
  function Association(nvs: Nvs, b: Baked): seq<Effect> {
    if HasStoredPair(nvs) then [Begin(nvs.ssid, nvs.pass)]
    else if b.ssid.Some? && b.pass.Some? then [Begin(b.ssid.value, b.pass.value)]
    else []
  }

  predicate HasBakedPair(b: Baked) {
    b.ssid.Some? && b.pass.Some? && b.ssid.value != "" && b.pass.value != ""
  }

  // A campaign leaves an empty baked-in pair alone.
  function CampaignAssociation(nvs: Nvs, b: Baked): seq<Effect> {
    if HasStoredPair(nvs) || HasBakedPair(b) then Association(nvs, b) else []
  }

  // A tick outside a campaign at which CONNECTING looks at the retry clock: the radio is idle and five minutes
  // are not over, or it refuses and stored credentials have not been refused for more than 30 s.
  predicate Eligible(c: Context, e: Event) {
    && e.Tick? && c.state.Connecting? && !c.pendingAuthFail
    && ((e.status == 0 && Waited(c, e) <= 300000)
        || ((e.status == 4 || e.status == 1) && !(e.nvs.hasCount && Waited(c, e) > 30000)))
  }

  // ---- one attempt ----

  lemma AssociationIs(nvs: Nvs, b: Baked)
    ensures BeginWith(nvs, b) == Association(nvs, b)
  {
  }

  lemma IdleAttempt(b: Baked, c: Context, e: Event)
    requires Eligible(c, e) && e.status == 0
    ensures var o := Step(b, c, e);
      && o.ctx == (if Due(c, e) then Reanchored(c, Millis(e.at)).(lastRetryMs := Millis(e.at),
                                       reconnectAttempts := c.reconnectAttempts + 1)
                   else Reanchored(c, Millis(e.at)))
      && o.fx == if Due(c, e) then Association(e.nvs, b) else []
  {
    var c1 := Reanchored(c, Millis(e.at));
    AssociationIs(e.nvs, b);
    assert OnTick(b, c, e) == IdleStatus(b, c1, e);
  }

  lemma RefusedAttempt(b: Baked, c: Context, e: Event)
    requires Eligible(c, e) && e.status != 0
    ensures var o := Step(b, c, e);
      && o.ctx == (if Due(c, e) then Reanchored(c, Millis(e.at)).(lastRetryMs := Millis(e.at),
                                       reconnectAttempts := c.reconnectAttempts + 1)
                   else Reanchored(c, Millis(e.at)))
      && o.fx == if Due(c, e) then [Disconnect] + Association(e.nvs, b) else []
  {
    var c1 := Reanchored(c, Millis(e.at));
    AssociationIs(e.nvs, b);
    assert OnTick(b, c, e) == ConnectFailed(b, c1, e, Sub32(Millis(e.at), c1.connectStartTime));
  }

  lemma NoAttempt(b: Baked, c: Context, e: Event)
    requires e.Tick? && c.state.Connecting? && !c.pendingAuthFail && !Eligible(c, e)
    ensures Step(b, c, e).ctx.reconnectAttempts != c.reconnectAttempts + 1
    ensures forall x :: x in Step(b, c, e).fx ==> !x.Begin? && !x.Disconnect?
  {
    var c1 := Reanchored(c, Millis(e.at));
    assert OnTick(b, c, e) == WhenConnecting(b, c, e);
  }

  /** Outside a campaign a tick in CONNECTING makes an attempt if and only if the radio is idle or refusing within
      its budget, and fewer than five attempts were made or the last one is at least 5 s old. The attempt is
      counted and stamped, drops a refused association first, and associates with the right pair. */
  lemma AttemptExactly(b: Baked, c: Context, e: Event)
    requires e.Tick? && c.state.Connecting? && !c.pendingAuthFail
    ensures var o := Step(b, c, e);
      var attempt := Eligible(c, e) && (c.reconnectAttempts < 5 || Sub32(Millis(e.at), c.lastRetryMs) >= 5000);
      && (attempt <==> o.ctx.reconnectAttempts == c.reconnectAttempts + 1)
      && (attempt ==> o.ctx.state.Connecting? && o.ctx.lastRetryMs == Millis(e.at)
                      && o.fx == (if e.status == 0 then [] else [Disconnect]) + Association(e.nvs, b))
      && (Eligible(c, e) && !attempt ==> o.ctx.lastRetryMs == c.lastRetryMs && o.fx == [])
      && (!attempt ==> forall x :: x in o.fx ==> !x.Begin? && !x.Disconnect?)
  {
    if Eligible(c, e) {
      if e.status == 0 {
        IdleAttempt(b, c, e);
        assert [] + Association(e.nvs, b) == Association(e.nvs, b);
      } else {
        RefusedAttempt(b, c, e);
      }
    } else {
      NoAttempt(b, c, e);
    }
  }

  lemma CampaignCalls(b: Baked, c: Context, e: Event)
    requires e.Tick? && c.pendingAuthFail && c.strategyIndex < 3
    ensures StrategyEffects(c.strategyIndex, e.nvs, b) ==
      (match c.strategyIndex case 0 => [] case 1 => [Disconnect, SetMode(1)] case _ => [SetMode(0), SetMode(1)])
      + CampaignAssociation(e.nvs, b)
  {
    assert [] + CampaignAssociation(e.nvs, b) == CampaignAssociation(e.nvs, b);
  }

  /** A campaign tick without a connection makes an attempt under the same condition. Strategy 0 associates again,
      1 first drops the association and resets station mode, 2 first cycles the radio; the last strategy of the
      third pass, or any of a later one, then raises the access point. The rotation moves on by one. */
  lemma CampaignAttemptExactly(b: Baked, c: Context, e: Event)
    requires e.Tick? && e.status != 3 && c.pendingAuthFail && c.strategyIndex < 3
    ensures var o := Step(b, c, e);
      var attempt := c.reconnectAttempts < 5 || Sub32(Millis(e.at), c.lastRetryMs) >= 5000;
      var last := c.strategyLoop >= 3 || (c.strategyLoop == 2 && c.strategyIndex == 2);
      && (attempt <==> o.ctx.reconnectAttempts == c.reconnectAttempts + 1)
      && (!attempt ==> o == Outcome(c, []))
      && (attempt ==>
            && o.ctx.lastRetryMs == Millis(e.at)
            && (o.ctx.strategyIndex, o.ctx.strategyLoop)
               == (if c.strategyIndex == 2 then (0, c.strategyLoop + 1) else (c.strategyIndex + 1, c.strategyLoop))
            && o.ctx.state == (if last then ApAuthFail else c.state)
            && o.fx == (match c.strategyIndex
                        case 0 => [] case 1 => [Disconnect, SetMode(1)] case _ => [SetMode(0), SetMode(1)])
                       + CampaignAssociation(e.nvs, b) + if last then [SetMode(2), SoftAp] else [])
  {
    CampaignCalls(b, c, e);
    var fx := StrategyEffects(c.strategyIndex, e.nvs, b);
    assert fx + [] == fx;
    assert fx + RAISE_AP + [] + [] == fx + RAISE_AP;
  }

  // ---- where each state leads ----

  /** From boot: stored credentials lead to CONNECTING if complete and nowhere if not; without any, a baked-in pair
      leads there, and with none the default access point is raised. */
  lemma FromDisconnected(b: Baked, c: Context, e: Event)
    requires e.Tick? && c.state.Disconnected? && !c.pendingAuthFail
    ensures var o := Step(b, c, e);
      if HasStoredPair(e.nvs) || (!e.nvs.hasCount && HasBakedPair(b)) then
        && o.fx == [SetMode(1), SetHostname] + Association(e.nvs, b)
        && o.ctx == c.(state := Connecting, connectStartTime := Millis(e.at), lastRetryMs := Millis(e.at))
      else if e.nvs.hasCount then o == Outcome(c, [])
      else o.ctx == c.(state := ApDefault, apModeStaRetryMs := 0) && o.fx == [SetMode(2), SoftAp]
  {
    assert [SetMode(2), SoftAp] + [] + [] == [SetMode(2), SoftAp];
    if HasStoredPair(e.nvs) || (!e.nvs.hasCount && HasBakedPair(b)) {
      var fx := WhenDisconnected(b, c, e).fx;
      assert fx == [SetMode(1), SetHostname] + Association(e.nvs, b);
      assert fx + [] + [] == fx;
    }
  }

  /** A tick leaves the device in CONNECTED exactly when the radio is connected and CONNECTING or a campaign was
      waiting for that, or the device was CONNECTED and still has an address. Losing either leads to CONNECTING. */
  lemma ConnectedExactly(b: Baked, c: Context, e: Event)
    requires e.Tick? && Invariant(c)
    ensures Next(b, c, e).state.Connected? <==>
      e.status == 3 && (c.pendingAuthFail || c.state.Connecting? || (c.state.Connected? && e.ip != "0.0.0.0"))
    ensures c.state.Connected? && !Next(b, c, e).state.Connected? ==> Next(b, c, e).state.Connecting?
  {
    if c.state.Connecting? && !c.pendingAuthFail {
      ConnectingStays(b, c, e);
    }
  }

  lemma ConnectingStays(b: Baked, c: Context, e: Event)
    requires e.Tick? && c.state.Connecting? && !c.pendingAuthFail
    ensures Next(b, c, e).state.Connected? <==> e.status == 3
  {
    if e.status == 3 {
      var c1 := Reanchored(c, Millis(e.at));
      assert OnTick(b, c, e) == EnterConnected(c1, e);
    } else if Refused(e.status) {
      WhenRefused(b, c, e);
    } else {
      WhenNotRefused(b, c, e);
    }
  }

  /** What entering CONNECTED does: discovery starts over, the socket is restarted on the first connection, on
      another address, or more than 30 s after the last polled drop, the network clock is started, and nothing is
      left of campaign, counters and pending reconnect. */
  lemma EntryExactly(b: Baked, c: Context, e: Event)
    requires e.Tick? && Invariant(c) && e.status == 3 && (c.pendingAuthFail || c.state.Connecting?)
    ensures var o := Step(b, c, e);
      var outage := if c.disconnectStartMs == 0 then 0 else Sub32(Millis(e.at), c.disconnectStartMs);
      var restart := c.lastConnectedIp == "" || e.ip != c.lastConnectedIp || outage > 30000;
      && o.fx == [DiscoveryReset] + (if restart then [TcpRestart] else []) + [NtpInit]
      && o.ctx.state.Connected? && o.ctx.lastConnectedIp == e.ipAtEntry
      && o.ctx.tcpServerNeedsRestart == (c.tcpServerNeedsRestart || restart)
      && !o.ctx.pendingAuthFail && o.ctx.strategyIndex == o.ctx.strategyLoop == o.ctx.reconnectAttempts == 0
      && !o.ctx.reconnectPending
  {
    var c1 := if c.pendingAuthFail then c else Reanchored(c, Millis(e.at));
    assert OnTick(b, c, e) == EnterConnected(c1, e);
  }

  /** The calls of a recovery from AP mode, whose time is ApRecoveryFires. */
  lemma RecoveryCalls(b: Baked, c: Context, e: Event)
    requires e.Tick? && !c.pendingAuthFail && c.state.IsAp() && Next(b, c, e).state.Connecting?
    ensures Step(b, c, e).fx == [SetMode(1)] + Association(e.nvs, b)
    ensures Next(b, c, e).connectStartTime == Next(b, c, e).lastRetryMs == Millis(e.at)
  {
    AssociationIs(e.nvs, b);
    var fx := [SetMode(1)] + Association(e.nvs, b);
    assert fx + [] + [] == fx;
  }

  // ---- disconnect events and the next attempt ----

  /** The first idle or refusing tick after CONNECTED was lost makes an attempt at once, whether the poll or a
      link-level event noticed the loss. */
  lemma LossIsRetriedAtOnce(b: Baked, cs: seq<Context>, es: seq<Event>, i: nat)
    requires IsRun(b, cs, es) && i + 1 < |es| && cs[i].state.Connected? && !cs[i + 1].state.Connected?
    requires es[i + 1].Tick? && es[i + 1].status in {0, 1, 4}
    requires es[i].Drop? ==> es[i].reason !in {15, 23, 202}
    ensures Step(b, cs[i + 1], es[i + 1]).fx ==
      (if es[i + 1].status == 0 then [] else [Disconnect]) + Association(es[i + 1].nvs, b)
  {
    RunObeys(b, cs, es);
    At(cs, es, i);
    LossArms(b, cs[i], es[i]);
    AttemptExactly(b, cs[i + 1], es[i + 1]);
  }

  lemma LossArms(b: Baked, c: Context, e: Event)
    requires Invariant(c) && c.state.Connected? && !Next(b, c, e).state.Connected?
    requires e.Drop? ==> !IsAuthFailure(e.reason)
    ensures var c' := Next(b, c, e);
      c'.state.Connecting? && c'.reconnectPending && c'.reconnectAttempts == 0 && !c'.pendingAuthFail
  {
  }

  /** An authentication event is documented to make the first strategy fire promptly. It zeroes the retry stamp,
      so the next tick fires if and only if fewer than five attempts were made or the clock does not read less
      than 5 s, as it does just after boot and after each wrap. */
  lemma ArmedFiresExactly(b: Baked, c: Context, reason: int, at: nat, e: Event)
    requires Invariant(c) && reason in {15, 23, 202} && e.Tick? && e.status != 3
    ensures var armed := Next(b, c, Drop(at, reason));
      Next(b, armed, e).reconnectAttempts == armed.reconnectAttempts + 1 <==>
        c.state.Connected? || c.reconnectAttempts < 5 || Millis(e.at) >= 5000
  {
    CampaignAttemptExactly(b, OnDrop(c, reason), e);
  }

  // ---- how often attempts come ----

  // Every tick of the stretch is one at which the retry clock is looked at.
  ghost predicate KeepsTrying(cs: seq<Context>, es: seq<Event>)
    requires |cs| == |es| + 1
  {
    forall k :: 0 <= k < |es| && es[k].Tick? ==>
      Eligible(cs[k], es[k]) || (cs[k].pendingAuthFail && es[k].status != 3)
  }

  // The time of the last tick among the first k events, or of the first event.
  ghost function LastTick(es: seq<Event>, k: nat): nat
    requires 0 < k <= |es|
  {
    if k == 1 || es[k - 1].Tick? then es[k - 1].at else LastTick(es, k - 1)
  }

  // Ticks come at most gap apart.
  ghost predicate TicksEvery(es: seq<Event>, gap: nat) {
    && es != [] && es[0].Tick?
    && forall k :: 0 < k < |es| && es[k].Tick? ==> es[k].at <= LastTick(es, k) + gap
  }

  // What the retry clock and the counter do at one event of such a stretch.
  ghost predicate Tries(c: Context, e: Event, c': Context) {
    if e.Tick? && Due(c, e) then c'.reconnectAttempts == c.reconnectAttempts + 1 && c'.lastRetryMs == Millis(e.at)
    else c'.reconnectAttempts == c.reconnectAttempts && c'.lastRetryMs == c.lastRetryMs
  }

  lemma TriesAt(b: Baked, c: Context, e: Event)
    requires Invariant(c) && !e.Drop?
    requires e.Tick? ==> Eligible(c, e) || (c.pendingAuthFail && e.status != 3)
    ensures Tries(c, e, Next(b, c, e))
  {
    if e.Tick? {
      if c.pendingAuthFail {
        CampaignAttemptExactly(b, c, e);
      } else if e.status == 0 {
        IdleAttempt(b, c, e);
      } else {
        RefusedAttempt(b, c, e);
      }
    }
  }

  lemma AgeGrows(t: nat, gap: nat, stamp: uint32)
    requires Sub32(Millis(t), stamp) + gap < WRAP
    ensures Sub32(Millis(t + gap), stamp) == Sub32(Millis(t), stamp) + gap
  {
    var q := t / WRAP;
    assert t == q * WRAP + Millis(t);
    assert t + gap == (t + gap) / WRAP * WRAP + Millis(t + gap);
    assert (t + gap) / WRAP == q || (t + gap) / WRAP == q + 1;
  }

  lemma OneMore(n: nat, x: nat)
    ensures (n + 1) * x == n * x + x
  {
  }

  lemma KeepUpStep(c: Context, e: Event, c': Context, last: nat, n: nat, gap: nat, start: nat)
    requires Tries(c, e, c') && e.Tick? && 5000 + gap < WRAP && start <= last <= e.at <= last + gap
    requires Sub32(Millis(last), c.lastRetryMs) < 5000
    requires last - start <= n * (5000 + gap) + Sub32(Millis(last), c.lastRetryMs)
    ensures var age := Sub32(Millis(e.at), c'.lastRetryMs);
      age < 5000 && e.at - start <= (n + if IsRetry(c, c') then 1 else 0) * (5000 + gap) + age
  {
    AgeGrows(last, e.at - last, c.lastRetryMs);
    OneMore(n, 5000 + gap);
  }

  // The age of the last attempt at the last tick stays below 5 s, and attempts keep up with the time.
  lemma {:induction false} AttemptsKeepUp(cs: seq<Context>, es: seq<Event>, gap: nat, k: nat)
    requires |cs| == |es| + 1 && InOrder(es) && TicksEvery(es, gap) && 5000 + gap < WRAP && 0 < k <= |es|
    requires forall m :: 0 <= m < k ==> Tries(cs[m], es[m], cs[m + 1])
    ensures var age := Sub32(Millis(LastTick(es, k)), cs[k].lastRetryMs);
      && age < 5000
      && es[0].at <= LastTick(es, k) <= es[k - 1].at
      && LastTick(es, k) - es[0].at <= Retries(cs, k) * (5000 + gap) + age
  {
    var c, e := cs[k - 1], es[k - 1];
    assert Tries(c, e, cs[k]);
    if k > 1 {
      AttemptsKeepUp(cs, es, gap, k - 1);
      assert es[0].at <= es[k - 2].at <= e.at;
      if e.Tick? {
        KeepUpStep(c, e, cs[k], LastTick(es, k - 1), Retries(cs, k - 1), gap, es[0].at);
      }
    }
  }

  lemma StretchTries(b: Baked, cs: seq<Context>, es: seq<Event>)
    requires IsRun(b, cs, es) && KeepsTrying(cs, es) && forall k :: 0 <= k < |es| ==> !es[k].Drop?
    ensures forall k :: 0 <= k < |es| ==> Tries(cs[k], es[k], cs[k + 1])
  {
    RunObeys(b, cs, es);
    forall k | 0 <= k < |es|
      ensures Tries(cs[k], es[k], cs[k + 1])
    {
      InvariantAlong(cs, es, k);
      TriesAt(b, cs[k], es[k]);
    }
  }

  /** The counterpart of RetryRateBound: while the manager keeps trying, with ticks at most gap apart and no
      disconnect event, each stretch of 5 s plus gap holds an attempt, but for one initial stretch of 5 s. */
  lemma AttemptsKeepComing(b: Baked, cs: seq<Context>, es: seq<Event>, gap: nat)
    requires IsRun(b, cs, es) && KeepsTrying(cs, es) && forall k :: 0 <= k < |es| ==> !es[k].Drop?
    requires TicksEvery(es, gap) && 5000 + gap < WRAP
    ensures LastTick(es, |es|) - es[0].at < Retries(cs, |es|) * (5000 + gap) + 5000
  {
    StretchTries(b, cs, es);
    AttemptsKeepUp(cs, es, gap, |es|);
  }

  // While a campaign stays on, each attempt costs one of the rank, and the last is never spent.
  lemma {:induction false} RankFalls(cs: seq<Context>, es: seq<Event>, k: nat)
    requires |cs| == |es| + 1 && k <= |es|
    requires forall m :: 0 <= m < k ==> Tries(cs[m], es[m], cs[m + 1]) && CampaignStep(cs[m], es[m], cs[m + 1])
    requires forall m :: 0 <= m < k ==> !es[m].Drop? && (es[m].Tick? ==> es[m].status != 3)
    requires forall m :: 0 <= m <= k ==> cs[m].pendingAuthFail
    ensures Rank(cs[k]) == Rank(cs[0]) - Retries(cs, k)
    ensures Retries(cs, k) > 0 ==> Rank(cs[k]) >= 1
  {
    if k > 0 {
      RankFalls(cs, es, k - 1);
      assert Tries(cs[k - 1], es[k - 1], cs[k]);
    }
  }

  /** So a campaign is over soon: one that is still on after a stretch of such ticks without a connection or a
      disconnect event has lasted less than 8 times (5 s plus gap) plus 5 s. */
  lemma CampaignIsBrief(b: Baked, cs: seq<Context>, es: seq<Event>, gap: nat)
    requires IsRun(b, cs, es) && TicksEvery(es, gap) && 5000 + gap < WRAP
    requires forall k :: 0 <= k < |es| ==> !es[k].Drop? && (es[k].Tick? ==> es[k].status != 3)
    requires forall k :: 0 <= k <= |es| ==> cs[k].pendingAuthFail
    ensures LastTick(es, |es|) - es[0].at < 8 * (5000 + gap) + 5000
  {
    AttemptsKeepComing(b, cs, es, gap);
    StretchTries(b, cs, es);
    RunObeys(b, cs, es);
    forall k | 0 <= k < |es|
      ensures CampaignStep(cs[k], es[k], cs[k + 1])
    {
      InvariantAlong(cs, es, k);
      CampaignSteps(b, cs[k], es[k]);
    }
    RankFalls(cs, es, |es|);
    var n := Retries(cs, |es|);
    assert n <= 8;
    Multiples(n, 8, 5000 + gap);
  }

  lemma Multiples(n: nat, m: nat, x: nat)
    requires n <= m
    ensures n * x <= m * x
  {
  }
}
