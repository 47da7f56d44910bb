/** Properties of whole runs of the WiFi lifecycle: every interleaving of ticks, disconnect events and
    flag acknowledgements, over a clock that wraps. */
module WiFiRuns {
  import opened Machine
  import opened WiFiModel
  import opened WiFiSteps

  ghost predicate InOrder(es: seq<Event>) {
    forall i, j :: 0 <= i <= j < |es| ==> es[i].at <= es[j].at
  }

  // cs[k] is the context before event k; events carry non-decreasing true time.
  ghost predicate IsRun(b: Baked, cs: seq<Context>, es: seq<Event>) {
    && |cs| == |es| + 1
    && (forall k :: 0 <= k < |es| ==> cs[k + 1] == Next(b, cs[k], es[k]))
    && InOrder(es)
    && Invariant(cs[0])
  }

  // A run seen only through the step relations.
  ghost predicate Obeys(cs: seq<Context>, es: seq<Event>) {
    && |cs| == |es| + 1
    && InOrder(es)
    && Invariant(cs[0])
    && (forall k :: 0 <= k < |es| ==> Summary(cs[k], es[k], cs[k + 1]))
  }

  lemma RunObeys(b: Baked, cs: seq<Context>, es: seq<Event>)
    requires IsRun(b, cs, es)
    ensures Obeys(cs, es)
  {
    forall k | 0 <= k < |es|
      ensures Summary(cs[k], es[k], cs[k + 1])
    {
      Summarise(b, cs[k], es[k]);
    }
  }

  lemma {:induction false} InvariantAlong(cs: seq<Context>, es: seq<Event>, k: nat)
    requires Obeys(cs, es) && k <= |es|
    ensures Invariant(cs[k])
  {
    if k > 0 {
      InvariantAlong(cs, es, k - 1);
      assert Summary(cs[k - 1], es[k - 1], cs[k]);
    }
  }

  lemma At(cs: seq<Context>, es: seq<Event>, k: nat)
    requires Obeys(cs, es) && k < |es|
    ensures Invariant(cs[k]) && Invariant(cs[k + 1])
    ensures BudgetStep(cs[k], es[k], cs[k + 1]) && RetryStep(cs[k], es[k], cs[k + 1])
    ensures ApStep(cs[k], es[k], cs[k + 1]) && RebindStep(cs[k], es[k], cs[k + 1])
    ensures ReasonStep(cs[k], es[k], cs[k + 1])
  {
    InvariantAlong(cs, es, k);
    assert Summary(cs[k], es[k], cs[k + 1]);
  }

  /** In every state reachable from boot, CONNECTED leaves no campaign, counter or pending reconnect. */
  lemma ConnectedIsClean(b: Baked, cs: seq<Context>, es: seq<Event>, k: nat)
    requires IsRun(b, cs, es) && cs[0] == INITIAL && k <= |es|
    ensures cs[k].strategyIndex < STRATEGY_COUNT
    ensures cs[k].state.Connected? ==>
      && !cs[k].pendingAuthFail && cs[k].strategyIndex == 0 && cs[k].strategyLoop == 0
      && cs[k].reconnectAttempts == 0 && !cs[k].reconnectPending
  {
    RunObeys(b, cs, es);
    InvariantAlong(cs, es, k);
  }

  // The stored stamp was taken at some true time in [lo, hi].
  ghost predicate StampedIn(stamp: uint32, lo: nat, hi: nat) {
    exists s: nat :: lo <= s <= hi && stamp == Millis(s)
  }

  lemma StampedElapsed(stamp: uint32, lo: nat, hi: nat, t: nat)
    requires StampedIn(stamp, lo, hi) && hi <= t
    ensures Sub32(Millis(t), stamp) <= t - lo
  {
    var s: nat :| lo <= s <= hi && stamp == Millis(s);
    ElapsedSound(t, s);
  }

  // ---- Rejoin budget ----

  // While CONNECTING lasts, the budget is either still to be re-anchored or was anchored after the entry.
  lemma {:induction false} BudgetAnchored(cs: seq<Context>, es: seq<Event>, i: nat, k: nat)
    requires Obeys(cs, es) && i < k <= |es|
    requires !cs[i].state.Connecting?
    requires forall m :: i < m <= k ==> cs[m].state.Connecting?
    ensures cs[k].reconnectPending || StampedIn(cs[k].connectStartTime, es[i].at, es[k - 1].at)
  {
    At(cs, es, k - 1);
    assert es[i].at <= es[k - 1].at;
    if k > i + 1 {
      BudgetAnchored(cs, es, i, k - 1);
      assert es[k - 2].at <= es[k - 1].at;
    }
  }

  /** However CONNECTING was entered, a fallback to AP mode that is not campaign exhaustion comes
      strictly more than 30 s of true time after that entry, even across a clock wrap. */
  lemma RejoinBudget(b: Baked, cs: seq<Context>, es: seq<Event>, i: nat, j: nat)
    requires IsRun(b, cs, es) && i < j < |es|
    requires !cs[i].state.Connecting?
    requires forall m :: i < m <= j ==> cs[m].state.Connecting?
    requires cs[j + 1].state.IsAp() && !cs[j].pendingAuthFail
    ensures es[j].at > es[i].at + 30000
  {
    RunObeys(b, cs, es);
    At(cs, es, j);
    BudgetAnchored(cs, es, i, j);
    StampedElapsed(cs[j].connectStartTime, es[i].at, es[j - 1].at, es[j].at);
  }

  // ---- Bounded campaign ----

  // Attempts left before the campaign gives up.
  function Rank(c: Context): int {
    STRATEGY_COUNT * (LOOP_COUNT - c.strategyLoop) - c.strategyIndex
  }

  predicate CampaignRetry(c: Context, e: Event) {
    c.pendingAuthFail && e.Tick? && e.status != WL_CONNECTED && Due(c, e)
  }

  /** Each unconnected retry tick uses up exactly one attempt; the one that uses up the last ends the
      campaign in AP_AUTH_FAIL with the last reported reason, and no earlier one changes the state. */
  lemma CampaignTickLowersRank(b: Baked, c: Context, e: Event)
    requires Invariant(c) && CampaignRetry(c, e)
    ensures Rank(Next(b, c, e)) == Rank(c) - 1
    ensures Rank(c) <= 1 ==> Next(b, c, e).state.ApAuthFail? && !Next(b, c, e).pendingAuthFail
                             && Next(b, c, e).escalatedToApReason == c.lastDisconnectReason
    ensures Rank(c) > 1 ==> Next(b, c, e).state == c.state && Next(b, c, e).pendingAuthFail
  {
  }

  /** Disconnect events never lengthen a campaign that finished its first pass; before that an auth
      event restores the full budget. */
  lemma DropsNeverExtend(b: Baked, c: Context, e: Event)
    requires Invariant(c) && e.Drop?
    ensures c.strategyLoop >= 1 ==> Rank(Next(b, c, e)) == Rank(c)
    ensures c.strategyLoop == 0 ==>
      Rank(Next(b, c, e)) == if IsAuthFailure(e.reason) then STRATEGY_COUNT * LOOP_COUNT else Rank(c)
  {
  }

  // Step i of a run arms a campaign; up to k it is on and meets no connection.
  ghost predicate Campaign(b: Baked, cs: seq<Context>, es: seq<Event>, i: nat, k: nat) {
    && IsRun(b, cs, es) && i < k <= |es|
    && !cs[i].pendingAuthFail && cs[i + 1].pendingAuthFail
    && (forall m :: i < m < k ==> cs[m].pendingAuthFail && (es[m].Tick? ==> es[m].status != WL_CONNECTED))
  }

  // Attempts a campaign is armed with: all nine, or one if the one before it gave up and nothing connected since.
  function Budget(armed: Context): nat {
    if armed.strategyLoop == 0 then STRATEGY_COUNT * LOOP_COUNT else 1
  }

  // An authentication event during the first pass puts the strategies back to the start.
  predicate Restarts(c: Context, e: Event) {
    e.Drop? && IsAuthFailure(e.reason) && c.strategyLoop == 0
  }

  // Attempts since step i armed the campaign or since its last restart.
  ghost function Since(cs: seq<Context>, es: seq<Event>, i: nat, k: nat): nat
    requires i < k <= |es| <= |cs|
  {
    if k == i + 1 || Restarts(cs[k - 1], es[k - 1]) then 0
    else Since(cs, es, i, k - 1) + if CampaignRetry(cs[k - 1], es[k - 1]) then 1 else 0
  }

  // What a step does to a campaign, as a flat relation.
  ghost predicate CampaignStep(c: Context, e: Event, c': Context) {
    && (!c.pendingAuthFail && c'.pendingAuthFail ==>
          if c'.strategyLoop == 0 then Rank(c') == 9 else c'.strategyLoop >= LOOP_COUNT)
    && (c.pendingAuthFail && (e.Tick? ==> e.status != WL_CONNECTED) ==>
          if CampaignRetry(c, e) then
            && Rank(c') == Rank(c) - 1 && c'.strategyLoop >= c.strategyLoop
            && (if Rank(c) > 1 then c'.pendingAuthFail && c'.state == c.state
                else !c'.pendingAuthFail && c'.state.ApAuthFail?)
          else
            && Rank(c') == (if Restarts(c, e) then 9 else Rank(c)) && c'.strategyLoop == c.strategyLoop
            && c'.pendingAuthFail && c'.state == c.state)
  }

  lemma CampaignSteps(b: Baked, c: Context, e: Event)
    requires Invariant(c)
    ensures CampaignStep(c, e, Next(b, c, e))
  {
    Summarise(b, c, e);
    if CampaignRetry(c, e) {
      CampaignTickLowersRank(b, c, e);
    }
  }

  lemma {:induction false} CampaignCounts(cs: seq<Context>, es: seq<Event>, i: nat, k: nat)
    requires Obeys(cs, es) && i < k <= |es|
    requires !cs[i].pendingAuthFail && cs[i + 1].pendingAuthFail
    requires forall m :: i < m < k ==> cs[m].pendingAuthFail && (es[m].Tick? ==> es[m].status != WL_CONNECTED)
    requires forall m :: i <= m < k ==> CampaignStep(cs[m], es[m], cs[m + 1])
    ensures CampaignSpends(cs, es, i, k)
  {
    InvariantAlong(cs, es, k);
    assert CampaignStep(cs[k - 1], es[k - 1], cs[k]);
    if k > i + 1 {
      CampaignCounts(cs, es, i, k - 1);
    }
  }

  // Where a campaign armed at step i stands at k.
  ghost predicate CampaignSpends(cs: seq<Context>, es: seq<Event>, i: nat, k: nat)
    requires i < k <= |es| < |cs|
  {
    var n, budget := Since(cs, es, i, k), Budget(cs[i + 1]);
    && n <= budget
    && (n < budget ==> cs[k].pendingAuthFail && cs[k].state == cs[i + 1].state)
    && (n == budget ==> !cs[k].pendingAuthFail && cs[k].state.ApAuthFail?)
    && (budget > 1 ==> Rank(cs[k]) == budget - n && (cs[k].strategyLoop == 0 <==> n < STRATEGY_COUNT))
    && (budget == 1 ==> cs[k].strategyLoop >= LOOP_COUNT)
  }

  /** Every campaign of every run, whatever events it meets short of a connection. It is over, in
      AP_AUTH_FAIL, exactly when its budget of attempts has been spent since its last restart, and changes no
      state before; with nine attempts it can restart exactly as long as fewer than three have been made. So it
      is bounded unless authentication events keep arriving during the first pass. */
  lemma EveryCampaign(b: Baked, cs: seq<Context>, es: seq<Event>, i: nat, k: nat)
    requires Campaign(b, cs, es, i, k)
    ensures CampaignSpends(cs, es, i, k)
  {
    RunObeys(b, cs, es);
    forall m | i <= m < k
      ensures CampaignStep(cs[m], es[m], cs[m + 1])
    {
      InvariantAlong(cs, es, m);
      CampaignSteps(b, cs[m], es[m]);
    }
    CampaignCounts(cs, es, i, k);
  }

  // The radio calls of attempt n (from 0): a strategy, and the access point when it is the last.
  function Attempt(n: nat, last: bool, nvs: Nvs, b: Baked): seq<Effect> {
    StrategyEffects(n % STRATEGY_COUNT, nvs, b) + if last then RAISE_AP else []
  }

  lemma AttemptEffects(b: Baked, c: Context, e: Event, n: nat)
    requires Invariant(c) && c.pendingAuthFail && (e.Tick? ==> e.status != WL_CONNECTED)
    requires n % STRATEGY_COUNT == c.strategyIndex
    ensures Step(b, c, e).fx == if CampaignRetry(c, e) then Attempt(n, Rank(c) <= 1, e.nvs, b) else []
  {
    if CampaignRetry(c, e) {
      var fx := StrategyEffects(c.strategyIndex, e.nvs, b);
      assert fx + [] == fx;
      assert fx + [] + [] == fx;
      assert fx + RAISE_AP + [] + [] == fx + RAISE_AP;
    }
  }

  // The strategy of the next attempt, as a number congruent to its index.
  ghost function NextAttempt(cs: seq<Context>, es: seq<Event>, i: nat, k: nat): nat
    requires i < k <= |es| < |cs|
  {
    if cs[i + 1].strategyLoop == 0 then Since(cs, es, i, k) else cs[k].strategyIndex
  }

  lemma IndexOfAttempt(c: Context, n: nat)
    requires c.strategyIndex < STRATEGY_COUNT
    ensures c.strategyIndex % STRATEGY_COUNT == c.strategyIndex
    ensures Rank(c) == 9 - n ==> n % STRATEGY_COUNT == c.strategyIndex
    ensures c.strategyLoop >= LOOP_COUNT ==> Rank(c) <= 1
  {
  }

  lemma NextAttemptIndex(b: Baked, cs: seq<Context>, es: seq<Event>, i: nat, k: nat)
    requires Campaign(b, cs, es, i, k) && cs[k].pendingAuthFail
    ensures Invariant(cs[k]) && Since(cs, es, i, k) < Budget(cs[i + 1])
    ensures NextAttempt(cs, es, i, k) % STRATEGY_COUNT == cs[k].strategyIndex
    ensures Rank(cs[k]) <= 1 <==> Since(cs, es, i, k) == Budget(cs[i + 1]) - 1
  {
    EveryCampaign(b, cs, es, i, k);
    RunObeys(b, cs, es);
    InvariantAlong(cs, es, k);
    IndexOfAttempt(cs[k], Since(cs, es, i, k));
  }

  /** The radio calls of attempt n (from 0) of a nine-attempt campaign are exactly those of strategy n mod 3, with
      the access point raised by the ninth; every other step is silent. So without a restart it is three passes of
      0, 1, 2 in order. A campaign armed after exhaustion raises the access point with its one attempt. */
  lemma CampaignStrategies(b: Baked, cs: seq<Context>, es: seq<Event>, i: nat, k: nat)
    requires k < |es| && Campaign(b, cs, es, i, k + 1) && i < k
    ensures Since(cs, es, i, k) < Budget(cs[i + 1])
    ensures Step(b, cs[k], es[k]).fx ==
      if CampaignRetry(cs[k], es[k])
      then Attempt(NextAttempt(cs, es, i, k), Since(cs, es, i, k) == Budget(cs[i + 1]) - 1, es[k].nvs, b)
      else []
  {
    NextAttemptIndex(b, cs, es, i, k);
    AttemptEffects(b, cs[k], es[k], NextAttempt(cs, es, i, k));
  }

  // ---- Retry rate ----

  // A guarded retry at any of the three sites: each counts one reconnect attempt.
  predicate IsRetry(c: Context, c': Context) {
    c'.reconnectAttempts == c.reconnectAttempts + 1
  }

  ghost function Retries(cs: seq<Context>, k: nat): nat
    requires k < |cs|
  {
    if k == 0 then 0 else Retries(cs, k - 1) + if IsRetry(cs[k - 1], cs[k]) then 1 else 0
  }

  // A stretch with no disconnect event and no entry to CONNECTED.
  ghost predicate Undisturbed(cs: seq<Context>, es: seq<Event>)
    requires |cs| == |es| + 1
  {
    forall k :: 0 <= k < |es| ==> !es[k].Drop? && !EntersConnected(cs[k], cs[k + 1])
  }

  // After the sixth retry the retry clock has advanced 5 s for every further one.
  lemma {:induction false} RetryClock(cs: seq<Context>, es: seq<Event>, k: nat)
    requires Obeys(cs, es) && Undisturbed(cs, es) && 0 < k <= |es|
    ensures var n := Retries(cs, k);
            && cs[k].reconnectAttempts == cs[0].reconnectAttempts + n
            && (n >= 6 ==> StampedIn(cs[k].lastRetryMs, es[0].at + 5000 * (n - 6), es[k - 1].at))
  {
    var c, e := cs[k - 1], es[k - 1];
    At(cs, es, k - 1);
    assert es[0].at <= e.at;
    var n := Retries(cs, k);
    if k > 1 {
      RetryClock(cs, es, k - 1);
      assert es[k - 2].at <= e.at;
      var n0 := Retries(cs, k - 1);
      if n0 >= 6 {
        var lo := es[0].at + 5000 * (n0 - 6);
        StampedElapsed(c.lastRetryMs, lo, es[k - 2].at, e.at);
        var s: nat :| lo <= s <= es[k - 2].at && c.lastRetryMs == Millis(s);
        assert n > n0 ==> e.at >= lo + 5000;
      }
    }
  }

  /** Over any stretch with no disconnect event and no entry to CONNECTED, the retries of all three
      sites together number at most 6 plus one per 5 s. */
  lemma RetryRateBound(b: Baked, cs: seq<Context>, es: seq<Event>)
    requires IsRun(b, cs, es) && Undisturbed(cs, es) && |es| > 0
    ensures Retries(cs, |es|) <= 6 + (es[|es| - 1].at - es[0].at) / 5000
  {
    RunObeys(b, cs, es);
    RetryClock(cs, es, |es|);
    assert es[0].at <= es[|es| - 1].at;
  }

  // ---- AP-mode recovery ----

  lemma {:induction false} ApTimerArmedAfterEntry(cs: seq<Context>, es: seq<Event>, i: nat, k: nat)
    requires Obeys(cs, es) && i < k <= |es|
    requires !cs[i].state.IsAp() && cs[i + 1].state.IsAp()
    requires forall m :: i < m <= k ==> !cs[m].state.Connected? && !cs[m].state.Connecting?
    ensures cs[k].state.IsAp()
    ensures cs[k].apModeStaRetryMs == 0 || StampedIn(cs[k].apModeStaRetryMs, es[i].at, es[k - 1].at)
  {
    At(cs, es, k - 1);
    assert es[i].at <= es[k - 1].at;
    if k > i + 1 {
      ApTimerArmedAfterEntry(cs, es, i, k - 1);
      assert es[k - 2].at <= es[k - 1].at;
    }
  }

  /** Once AP mode is entered, CONNECTING is not re-entered (short of a connection) for five minutes. */
  lemma ApRecoveryNotEarly(b: Baked, cs: seq<Context>, es: seq<Event>, i: nat, j: nat)
    requires IsRun(b, cs, es) && i < j < |es|
    requires !cs[i].state.IsAp() && cs[i + 1].state.IsAp()
    requires forall m :: i < m <= j ==> !cs[m].state.Connected? && !cs[m].state.Connecting?
    requires cs[j + 1].state.Connecting?
    ensures es[j].at >= es[i].at + 300000
  {
    RunObeys(b, cs, es);
    At(cs, es, j);
    ApTimerArmedAfterEntry(cs, es, i, j);
    assert es[j - 1].at <= es[j].at;
    StampedElapsed(cs[j].apModeStaRetryMs, es[i].at, es[j - 1].at, es[j].at);
  }

  // The first AP tick arms the timer unless the clock happens to read 0.
  ghost predicate RecoveryArmed(cs: seq<Context>, es: seq<Event>, k: nat) {
    && |cs| == |es| + 1 && k < |es|
    && (cs[0].state.ApAuthFail? || cs[0].state.ApNoAp?) && !cs[0].pendingAuthFail
    && cs[0].apModeStaRetryMs == 0 && es[0].Tick? && Millis(es[0].at) != 0
    && (forall m :: 0 <= m <= k ==> !es[m].Drop? && cs[m].state.IsAp())
  }

  // While no event intervenes, the timer keeps the stamp of the first AP tick.
  lemma {:induction false} ApTimerKept(cs: seq<Context>, es: seq<Event>, k: nat)
    requires Obeys(cs, es) && RecoveryArmed(cs, es, k) && k > 0
    ensures cs[k].state == cs[0].state && !cs[k].pendingAuthFail
    ensures cs[k].apModeStaRetryMs == Millis(es[0].at)
  {
    At(cs, es, k - 1);
    if k > 1 {
      ApTimerKept(cs, es, k - 1);
    }
  }

  /** With no further events, the step that leaves AP mode is exactly the first tick at least five
      minutes after the tick that armed the timer. */
  lemma ApRecoveryFires(b: Baked, cs: seq<Context>, es: seq<Event>, k: nat)
    requires IsRun(b, cs, es) && RecoveryArmed(cs, es, k) && k > 0
    requires es[k].at - es[0].at < WRAP
    ensures cs[k + 1].state ==
      if es[k].Tick? && es[k].at - es[0].at >= 300000 then Connecting else cs[0].state
  {
    RunObeys(b, cs, es);
    ApTimerKept(cs, es, k);
    At(cs, es, k);
    assert es[0].at <= es[k].at;
    ElapsedSound(es[k].at, es[0].at);
  }

  // ---- TCP rebind rule ----

  lemma {:induction false} IpRemembered(cs: seq<Context>, es: seq<Event>, i: nat, k: nat)
    requires Obeys(cs, es) && i < k <= |es|
    requires EntersConnected(cs[i], cs[i + 1])
    requires forall m :: i < m < k ==> !EntersConnected(cs[m], cs[m + 1])
    ensures es[i].Tick? && cs[k].lastConnectedIp == es[i].ipAtEntry
  {
    At(cs, es, k - 1);
    if k > i + 1 {
      IpRemembered(cs, es, i, k - 1);
      assert !EntersConnected(cs[k - 1], cs[k]);
    }
  }

  /** A connection whose IP differs from the one recorded at the previous connection raises the
      TCP-restart flag. */
  lemma NewIpRebinds(b: Baked, cs: seq<Context>, es: seq<Event>, i: nat, j: nat)
    requires IsRun(b, cs, es) && i < j < |es|
    requires EntersConnected(cs[i], cs[i + 1]) && EntersConnected(cs[j], cs[j + 1])
    requires forall m :: i < m < j ==> !EntersConnected(cs[m], cs[m + 1])
    ensures es[i].Tick? && es[j].Tick?
    ensures es[j].ip != es[i].ipAtEntry ==> cs[j + 1].tcpServerNeedsRestart
  {
    RunObeys(b, cs, es);
    At(cs, es, j);
    IpRemembered(cs, es, i, j);
  }

  // CONNECTED ends at step i and there is no connection up to k.
  ghost predicate Outage(cs: seq<Context>, es: seq<Event>, i: nat, k: nat) {
    && |cs| == |es| + 1 && i < k <= |es|
    && cs[i].state.Connected?
    && (forall m :: i < m <= k ==> !cs[m].state.Connected?)
  }

  // An outage that the poll noticed.
  ghost predicate Blip(cs: seq<Context>, es: seq<Event>, i: nat, k: nat) {
    Outage(cs, es, i, k) && es[i].Tick?
  }

  // An outage that began with a disconnect event.
  ghost predicate EventOutage(cs: seq<Context>, es: seq<Event>, i: nat, k: nat) {
    Outage(cs, es, i, k) && es[i].Drop?
  }

  // Ticks leave the restart flag alone, events never raise it.
  predicate FlagKept(c: Context, e: Event, c': Context) {
    if e.Tick? then c'.tcpServerNeedsRestart == c.tcpServerNeedsRestart
    else c'.tcpServerNeedsRestart ==> c.tcpServerNeedsRestart
  }

  lemma {:induction false} BlipKeeps(cs: seq<Context>, es: seq<Event>, i: nat, k: nat)
    requires Obeys(cs, es) && Blip(cs, es, i, k)
    ensures cs[k].disconnectStartMs == Millis(es[i].at)
    ensures cs[k].lastConnectedIp == cs[i].lastConnectedIp
    ensures forall m :: i <= m < k ==> FlagKept(cs[m], es[m], cs[m + 1])
  {
    At(cs, es, k - 1);
    if k > i + 1 {
      BlipKeeps(cs, es, i, k - 1);
    }
  }

  /** The restart rule after a polled drop that reconnects on the recorded IP: the flag is up exactly when it
      already was, or when the outage was long. Within one clock wrap, and unless the clock read 0 at the drop,
      long means more than 30 s of true time. */
  lemma PolledOutageRebinds(b: Baked, cs: seq<Context>, es: seq<Event>, i: nat, j: nat)
    requires IsRun(b, cs, es) && j < |es| && Blip(cs, es, i, j)
    requires es[j].Tick? && cs[j + 1].state.Connected?
    requires es[j].ip == cs[i].lastConnectedIp != ""
    ensures cs[j + 1].tcpServerNeedsRestart <==>
      || cs[j].tcpServerNeedsRestart
      || (Millis(es[i].at) > 0 && Sub32(Millis(es[j].at), Millis(es[i].at)) > 30000)
    ensures Millis(es[i].at) > 0 && es[j].at - es[i].at < WRAP ==>
      (cs[j + 1].tcpServerNeedsRestart <==> cs[j].tcpServerNeedsRestart || es[j].at > es[i].at + 30000)
  {
    RunObeys(b, cs, es);
    At(cs, es, j);
    BlipKeeps(cs, es, i, j);
    assert es[i].at <= es[j].at;
    ElapsedSound(es[j].at, es[i].at);
  }

  /** A polled drop that reconnects within 30 s on the recorded IP never changes the flag at a tick, the
      connection included: that is left to acknowledgements and disconnect events, which can only clear it. */
  lemma SameIpBlipKeepsSocket(b: Baked, cs: seq<Context>, es: seq<Event>, i: nat, j: nat)
    requires IsRun(b, cs, es) && j < |es| && Blip(cs, es, i, j)
    requires es[j].Tick? && cs[j + 1].state.Connected?
    requires es[j].at <= es[i].at + 30000
    requires es[j].ip == cs[i].lastConnectedIp != ""
    ensures forall m :: i <= m <= j ==> FlagKept(cs[m], es[m], cs[m + 1])
  {
    RunObeys(b, cs, es);
    ShortOutageKeeps(cs, es, i, j);
  }

  lemma ShortOutageKeeps(cs: seq<Context>, es: seq<Event>, i: nat, j: nat)
    requires Obeys(cs, es) && j < |es| && Blip(cs, es, i, j)
    requires es[j].Tick? && cs[j + 1].state.Connected?
    requires es[j].at <= es[i].at + 30000
    requires es[j].ip == cs[i].lastConnectedIp != ""
    ensures forall m :: i <= m <= j ==> FlagKept(cs[m], es[m], cs[m + 1])
  {
    At(cs, es, j);
    BlipKeeps(cs, es, i, j);
    assert es[i].at <= es[j].at;
    ElapsedSound(es[j].at, es[i].at);
  }

  // The stamp of the last polled drop before step k; 0 as long as there was none.
  ghost function LastPolledDrop(cs: seq<Context>, es: seq<Event>, k: nat): uint32
    requires k <= |es| < |cs|
  {
    if k == 0 then 0
    else if es[k - 1].Tick? && cs[k - 1].state.Connected? && !cs[k].state.Connected? then Millis(es[k - 1].at)
    else LastPolledDrop(cs, es, k - 1)
  }

  lemma {:induction false} StampIsLastPolledDrop(cs: seq<Context>, es: seq<Event>, k: nat)
    requires Obeys(cs, es) && cs[0] == INITIAL && k <= |es|
    ensures cs[k].disconnectStartMs == LastPolledDrop(cs, es, k)
  {
    if k > 0 {
      StampIsLastPolledDrop(cs, es, k - 1);
      At(cs, es, k - 1);
    }
  }

  // The IP recorded at the last connection before step k; empty as long as there was none.
  ghost function LastIp(cs: seq<Context>, es: seq<Event>, k: nat): string
    requires k <= |es| < |cs|
  {
    if k == 0 then ""
    else if EntersConnected(cs[k - 1], cs[k]) && es[k - 1].Tick? then es[k - 1].ipAtEntry
    else LastIp(cs, es, k - 1)
  }

  lemma {:induction false} IpIsLast(cs: seq<Context>, es: seq<Event>, k: nat)
    requires Obeys(cs, es) && cs[0] == INITIAL && k <= |es|
    ensures cs[k].lastConnectedIp == LastIp(cs, es, k)
  {
    if k > 0 {
      IpIsLast(cs, es, k - 1);
      At(cs, es, k - 1);
    }
  }

  /** The restart rule for every connection of every run from boot: the flag is up afterwards exactly when it
      was up before, it is the first connection, the IP differs from the one recorded last, or more than 30 s
      lie between the last polled drop, of whatever outage, and this connection. */
  lemma RebindExactly(b: Baked, cs: seq<Context>, es: seq<Event>, j: nat)
    requires IsRun(b, cs, es) && cs[0] == INITIAL && j < |es| && EntersConnected(cs[j], cs[j + 1])
    ensures es[j].Tick? && cs[j + 1].lastConnectedIp == es[j].ipAtEntry
    ensures cs[j + 1].tcpServerNeedsRestart <==>
      || cs[j].tcpServerNeedsRestart
      || LastIp(cs, es, j) == "" || es[j].ip != LastIp(cs, es, j)
      || (LastPolledDrop(cs, es, j) > 0 && Sub32(Millis(es[j].at), LastPolledDrop(cs, es, j)) > 30000)
  {
    RunObeys(b, cs, es);
    At(cs, es, j);
    IpIsLast(cs, es, j);
    StampIsLastPolledDrop(cs, es, j);
  }

  // The application acknowledges the flag, or an authentication event clears it, strictly between i and k.
  ghost predicate ClearedBetween(es: seq<Event>, i: nat, k: nat)
    requires k <= |es|
  {
    exists m :: i < m < k && (es[m].ClearRestart? || (es[m].Drop? && IsAuthFailure(es[m].reason)))
  }

  lemma {:induction false} EventOutageKeeps(cs: seq<Context>, es: seq<Event>, i: nat, k: nat)
    requires Obeys(cs, es) && EventOutage(cs, es, i, k)
    ensures cs[k].disconnectStartMs == cs[i].disconnectStartMs
    ensures cs[k].lastConnectedIp == cs[i].lastConnectedIp
    ensures cs[k].tcpServerNeedsRestart <==> !IsAuthFailure(es[i].reason) && !ClearedBetween(es, i, k)
  {
    At(cs, es, k - 1);
    if k > i + 1 {
      EventOutageKeeps(cs, es, i, k - 1);
    }
  }

  /** The restart rule after a disconnect event, when the connection returns on the recorded IP. The event takes
      no stamp, so the length of the outage plays no part: the flag is up exactly when a link-level event raised
      it and nothing cleared it since, or when the last polled drop, which lies before this outage, is more than
      30 s ago. */
  lemma EventOutageRebinds(b: Baked, cs: seq<Context>, es: seq<Event>, i: nat, j: nat)
    requires IsRun(b, cs, es) && cs[0] == INITIAL && j < |es| && EventOutage(cs, es, i, j)
    requires es[j].Tick? && cs[j + 1].state.Connected?
    requires es[j].ip == cs[i].lastConnectedIp != ""
    ensures cs[j + 1].tcpServerNeedsRestart <==>
      || (!IsAuthFailure(es[i].reason) && !ClearedBetween(es, i, j))
      || (LastPolledDrop(cs, es, i) > 0 && Sub32(Millis(es[j].at), LastPolledDrop(cs, es, i)) > 30000)
  {
    RunObeys(b, cs, es);
    At(cs, es, j);
    EventOutageKeeps(cs, es, i, j);
    StampIsLastPolledDrop(cs, es, i);
  }

  const HOME := Nvs(true, "net", "secret")

  // A connection that ends with an authentication event and comes back ten minutes later.
  const LONG_EVENT_OUTAGE: seq<Event> :=
    [Tick(1, WL_IDLE, "", "", HOME), Tick(2, WL_CONNECTED, "10.0.0.7", "10.0.0.7", HOME), ClearRestart(3),
     Drop(1000, 202), Tick(601000, WL_CONNECTED, "10.0.0.7", "10.0.0.7", HOME)]

  /** A long outage that began with an authentication event does not rebind the socket. */
  lemma LongOutageWithoutRebind(b: Baked, cs: seq<Context>)
    requires IsRun(b, cs, LONG_EVENT_OUTAGE) && cs[0] == INITIAL
    ensures EventOutage(cs, LONG_EVENT_OUTAGE, 3, 4)
    ensures cs[5].state.Connected? && !cs[5].tcpServerNeedsRestart
  {
    var es := LONG_EVENT_OUTAGE;
    assert cs[0 + 1] == Next(b, cs[0], es[0]);
    assert cs[1 + 1] == Next(b, cs[1], es[1]);
    assert cs[1].state.Connecting? && cs[2].state.Connected?;
    assert cs[2 + 1] == cs[2].(tcpServerNeedsRestart := false);
    assert cs[3 + 1] == OnDrop(cs[3], 202);
    assert cs[4 + 1] == Next(b, cs[4], es[4]);
    EventOutageRebinds(b, cs, es, 3, 4);
  }
}
