/** The WiFi lifecycle as a pure step relation: what one tick, one disconnect event or one flag
    acknowledgement does to the connection context, and which calls it makes on the radio.
    WiFiManager.dfy proves the stateful manager against it; WiFiRuns.dfy proves the run properties. */
module WiFiModel {
  import opened Machine
  import opened Wrappers

  datatype State = Disconnected | Connecting | Connected | ApDefault | ApAuthFail | ApNoAp {
    predicate IsAp() { ApDefault? || ApAuthFail? || ApNoAp? }
  }

  datatype Context = Context(
    state: State,
    lastRetryMs: uint32,
    connectStartTime: uint32,
    lastDisconnectReason: int,
    tcpServerNeedsRestart: bool,
    escalatedToApReason: int,
    lastConnectedIp: string,
    reconnectPending: bool,
    disconnectStartMs: uint32,
    reconnectAttempts: nat,
    pendingAuthFail: bool,
    strategyIndex: nat,
    strategyLoop: nat,
    apModeStaRetryMs: uint32)

  const INITIAL := Context(Disconnected, 0, 0, 0, false, 0, "", false, 0, 0, false, 0, 0, 0)

  const RETRY_INTERVAL_MS := 5000
  const FIRST_RETRIES_COUNT := 5
  const CONNECT_TIMEOUT_MS := 30000
  const INITIAL_CONNECT_MS := 60 * RETRY_INTERVAL_MS
  const AP_STA_RETRY_MS := 300000
  const STRATEGY_COUNT := 3
  const LOOP_COUNT := 3
  const LONG_OUTAGE_MS := 30000

  const WL_IDLE := 0
  const WL_NO_SSID := 1
  const WL_CONNECTED := 3
  const WL_CONNECT_FAILED := 4

  // The credential namespace as one tick reads it.
  datatype Nvs = Nvs(hasCount: bool, ssid: string, pass: string)

  // Compile-time credentials; either pointer may be null.
  datatype Baked = Baked(ssid: Option<string>, pass: Option<string>) {
    predicate Present() { ssid.Some? && pass.Some? }
  }

  datatype Source = NoCredentials | StoredNvs | BakedIn

  // Everything the environment decides. `at` is true uptime; the code only ever sees Millis(at).
  // A tick that enters CONNECTED reads the station IP twice: once for the restart decision (ip)
  // and once when the entry is recorded (ipAtEntry).
  datatype Event =
    | Tick(at: nat, status: int, ip: string, ipAtEntry: string, nvs: Nvs)
    | Drop(at: nat, reason: int)
    | ClearRestart(at: nat)

  // Calls on the radio and on the injected callbacks.
  datatype Effect =
    | SetMode(mode: int)
    | SetHostname
    | Begin(ssid: string, pass: string)
    | Disconnect
    | SoftAp
    | DiscoveryReset
    | TcpRestart
    | NtpInit

  datatype Transition = Transition(next: State, tcpRestart: bool, ntp: bool)
  datatype Handled = Handled(ctx: Context, next: Transition, fx: seq<Effect>)
  datatype Outcome = Outcome(ctx: Context, fx: seq<Effect>)

  // ---- pure decisions ----

  function CredentialSource(nvs: Nvs, baked: Baked): Source {
    if nvs.hasCount then StoredNvs
    else if baked.Present() && baked.ssid.value != "" && baked.pass.value != "" then BakedIn
    else NoCredentials
  }

  function Load(nvs: Nvs): Option<(string, string)> {
    if nvs.ssid != "" && nvs.pass != "" then Some((nvs.ssid, nvs.pass)) else None
  }

  // The association attempt used by every plain retry: stored credentials win over baked ones.
  function BeginWith(nvs: Nvs, baked: Baked): seq<Effect> {
    if CredentialSource(nvs, baked).StoredNvs? && Load(nvs).Some? then [Begin(nvs.ssid, nvs.pass)]
    else if baked.Present() then [Begin(baked.ssid.value, baked.pass.value)]
    else []
  }

  predicate RetryDue(now: uint32, lastRetry: uint32, attempts: nat) {
    Sub32(now, lastRetry) >= if attempts < FIRST_RETRIES_COUNT then 0 else RETRY_INTERVAL_MS
  }

  predicate InitialTimeout(duration: uint32) { duration > INITIAL_CONNECT_MS }

  predicate IsAuthFailure(reason: int) { reason == 15 || reason == 23 || reason == 202 }

  predicate IsScanMiss(reason: int) { reason == 201 }

  predicate MustRebind(newIp: string, lastIp: string, outageMs: uint32) {
    lastIp == "" || newIp != lastIp || outageMs > LONG_OUTAGE_MS
  }

  function OutageMs(c: Context, now: uint32): uint32 {
    if c.disconnectStartMs > 0 then Sub32(now, c.disconnectStartMs) else 0
  }

  // The radio calls of one reset strategy, from plain re-association up to a full radio cycle.
  function StrategyEffects(index: int, nvs: Nvs, baked: Baked): seq<Effect> {
    var attempt :=
      if CredentialSource(nvs, baked).StoredNvs? && Load(nvs).Some? then [Begin(nvs.ssid, nvs.pass)]
      else if baked.Present() && baked.ssid.value != "" && baked.pass.value != ""
        then [Begin(baked.ssid.value, baked.pass.value)]
      else [];
    if index <= 0 then attempt
    else if index == 1 then [Disconnect, SetMode(1)] + attempt
    else [SetMode(0), SetMode(1)] + attempt
  }

  // ---- state handlers ----

  function Stay(c: Context): Handled {
    Handled(c, Transition(c.state, false, false), [])
  }

  function Goto(c: Context, s: State, fx: seq<Effect>): Handled {
    Handled(c, Transition(s, false, false), fx)
  }

  const RAISE_AP: seq<Effect> := [SetMode(2), SoftAp]

  function StampStart(c: Context, now: uint32): Context {
    c.(connectStartTime := now, lastRetryMs := now)
  }

  function Retried(c: Context, now: uint32): Context {
    c.(lastRetryMs := now, reconnectAttempts := c.reconnectAttempts + 1)
  }

  function WhenDisconnected(baked: Baked, c: Context, e: Event): Handled
    requires e.Tick?
  {
    match CredentialSource(e.nvs, baked)
    case StoredNvs =>
      if Load(e.nvs).Some?
      then Goto(StampStart(c, Millis(e.at)), Connecting, [SetMode(1), SetHostname, Begin(e.nvs.ssid, e.nvs.pass)])
      else Stay(c)
    case BakedIn =>
      Goto(StampStart(c, Millis(e.at)), Connecting,
           [SetMode(1), SetHostname, Begin(baked.ssid.value, baked.pass.value)])
    case NoCredentials => Goto(c, ApDefault, RAISE_AP)
  }

  // Entering CONNECTED clears every trace of the campaign and of the reconnect.
  function EnterConnected(c: Context, e: Event): Handled
    requires e.Tick?
  {
    Handled(c.(pendingAuthFail := false, strategyIndex := 0, strategyLoop := 0,
               reconnectPending := false, reconnectAttempts := 0),
            Transition(Connected, MustRebind(e.ip, c.lastConnectedIp, OutageMs(c, Millis(e.at))), true),
            [DiscoveryReset])
  }

  function ConnectFailed(baked: Baked, c: Context, e: Event, duration: uint32): Handled
    requires e.Tick?
  {
    var now := Millis(e.at);
    if CredentialSource(e.nvs, baked).StoredNvs? && duration > CONNECT_TIMEOUT_MS then
      Goto(c.(escalatedToApReason := c.lastDisconnectReason),
           if IsScanMiss(c.lastDisconnectReason) then ApNoAp else ApAuthFail, RAISE_AP)
    else if RetryDue(now, c.lastRetryMs, c.reconnectAttempts) then
      Goto(Retried(c, now), c.state, [Disconnect] + BeginWith(e.nvs, baked))
    else Stay(c)
  }

  function IdleStatus(baked: Baked, c: Context, e: Event): Handled
    requires e.Tick?
  {
    if RetryDue(Millis(e.at), c.lastRetryMs, c.reconnectAttempts)
    then Goto(Retried(c, Millis(e.at)), c.state, BeginWith(e.nvs, baked))
    else Stay(c)
  }

  function TimedOut(baked: Baked, c: Context, e: Event): Handled
    requires e.Tick?
  {
    var source := CredentialSource(e.nvs, baked);
    if source.StoredNvs? && IsAuthFailure(c.lastDisconnectReason) then
      Goto(c.(escalatedToApReason := c.lastDisconnectReason), ApAuthFail, RAISE_AP)
    else if source.NoCredentials? then Goto(c, ApDefault, RAISE_AP)
    else Goto(c, Connecting, [])
  }

  // A drop-driven re-entry left reconnectPending set: the first tick re-anchors the budget.
  function Reanchored(c: Context, now: uint32): Context {
    if c.reconnectPending then c.(connectStartTime := now, reconnectPending := false) else c
  }

  function WhenConnecting(baked: Baked, c0: Context, e: Event): Handled
    requires e.Tick?
  {
    var now := Millis(e.at);
    var c := Reanchored(c0, now);
    var duration := Sub32(now, c.connectStartTime);
    if e.status == WL_CONNECTED then EnterConnected(c, e)
    else if e.status == WL_CONNECT_FAILED || e.status == WL_NO_SSID then ConnectFailed(baked, c, e, duration)
    else if e.status == WL_IDLE && !InitialTimeout(duration) then IdleStatus(baked, c, e)
    else if InitialTimeout(duration) then TimedOut(baked, c, e)
    else Stay(c)
  }

  function WhenConnected(c: Context, e: Event): Handled
    requires e.Tick?
  {
    if e.status != WL_CONNECTED || e.ip == "0.0.0.0"
    then Goto(c.(reconnectPending := true, disconnectStartMs := Millis(e.at)), Connecting, [])
    else Stay(c)
  }

  function WhenAp(baked: Baked, c: Context, e: Event): Handled
    requires e.Tick?
  {
    var now := Millis(e.at);
    if c.state.ApDefault? then Stay(c)
    else if c.apModeStaRetryMs == 0 then Stay(c.(apModeStaRetryMs := now))
    else if Sub32(now, c.apModeStaRetryMs) < AP_STA_RETRY_MS then Stay(c)
    else Goto(StampStart(c.(apModeStaRetryMs := now), now), Connecting, [SetMode(1)] + BeginWith(e.nvs, baked))
  }

  function Advanced(c: Context, now: uint32): Context {
    if c.strategyIndex + 1 >= STRATEGY_COUNT
    then Retried(c.(strategyIndex := 0, strategyLoop := c.strategyLoop + 1), now)
    else Retried(c.(strategyIndex := c.strategyIndex + 1), now)
  }

  function CampaignTick(baked: Baked, c: Context, e: Event): Handled
    requires e.Tick?
  {
    if e.status == WL_CONNECTED then EnterConnected(c, e)
    else if !RetryDue(Millis(e.at), c.lastRetryMs, c.reconnectAttempts) then Stay(c)
    else
      var fx := StrategyEffects(c.strategyIndex, e.nvs, baked);
      var c' := Advanced(c, Millis(e.at));
      if c'.strategyLoop >= LOOP_COUNT
      then Goto(c'.(pendingAuthFail := false, escalatedToApReason := c'.lastDisconnectReason), ApAuthFail,
                fx + RAISE_AP)
      else Goto(c', c'.state, fx)
  }

  // ---- one step of the manager ----

  function Apply(h: Handled, ipAtEntry: string): Outcome {
    var c, t := h.ctx, h.next;
    if t.next == c.state then Outcome(c, h.fx)
    else Outcome(
      c.(state := t.next,
         lastConnectedIp := if t.next.Connected? then ipAtEntry else c.lastConnectedIp,
         apModeStaRetryMs := if t.next.IsAp() && !c.state.IsAp() then 0 else c.apModeStaRetryMs,
         tcpServerNeedsRestart := c.tcpServerNeedsRestart || t.tcpRestart),
      h.fx + (if t.tcpRestart then [TcpRestart] else []) + (if t.ntp then [NtpInit] else []))
  }

  function OnTick(baked: Baked, c: Context, e: Event): Handled
    requires e.Tick?
  {
    if c.pendingAuthFail then CampaignTick(baked, c, e)
    else match c.state
      case Disconnected => WhenDisconnected(baked, c, e)
      case Connecting => WhenConnecting(baked, c, e)
      case Connected => WhenConnected(c, e)
      case _ => WhenAp(baked, c, e)
  }

  // An auth failure arms the campaign; its index restarts only before the first full pass.
  function ArmCampaign(c: Context): Context {
    c.(pendingAuthFail := true, tcpServerNeedsRestart := false, lastRetryMs := 0,
       strategyIndex := if c.strategyLoop == 0 then 0 else c.strategyIndex)
  }

  // A live connection is over; the first CONNECTING tick will anchor a fresh budget.
  function Reconnecting(c: Context): Context {
    c.(state := Connecting, lastRetryMs := 0, reconnectAttempts := 0, reconnectPending := true)
  }

  function OnDrop(c0: Context, reason: int): Context {
    var c := c0.(lastDisconnectReason := reason);
    if IsAuthFailure(reason) then
      if c.state.Connected? then Reconnecting(ArmCampaign(c)) else ArmCampaign(c)
    else if c.state.Connected? then Reconnecting(c.(tcpServerNeedsRestart := true))
    else c
  }

  function Step(baked: Baked, c: Context, e: Event): Outcome {
    match e
    case Tick(_, _, _, ipAtEntry, _) => Apply(OnTick(baked, c, e), ipAtEntry)
    case Drop(_, reason) => Outcome(OnDrop(c, reason), [])
    case ClearRestart(_) => Outcome(c.(tcpServerNeedsRestart := false), [])
  }

  function Next(baked: Baked, c: Context, e: Event): Context {
    Step(baked, c, e).ctx
  }
}
