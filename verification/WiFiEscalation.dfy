/** When CONNECTING is abandoned for AP mode. Link-level drops are documented never to cause that; the
    30 s rule for refused associations does not look at the reason, so they can. */
module WiFiEscalation {
  import opened Machine
  import opened WiFiModel
  import opened WiFiRuns

  // How long the CONNECTING budget has been running at a tick; the first tick after a drop re-anchors it.
  function Waited(c: Context, e: Event): uint32 {
    if c.reconnectPending then 0 else Sub32(Millis(e.at), c.connectStartTime)
  }

  predicate Refused(status: int) {
    status == WL_CONNECT_FAILED || status == WL_NO_SSID
  }

  // Stored credentials refused for more than 30 s.
  predicate RefusedTooLong(b: Baked, c: Context, e: Event)
    requires e.Tick?
  {
    Refused(e.status) && CredentialSource(e.nvs, b).StoredNvs? && Waited(c, e) > 30000
  }

  // No progress for more than five minutes.
  predicate NoProgress(c: Context, e: Event)
    requires e.Tick?
  {
    e.status != WL_CONNECTED && !Refused(e.status) && Waited(c, e) > 300000
  }

  lemma WhenRefused(b: Baked, c: Context, e: Event)
    requires e.Tick? && c.state.Connecting? && !c.pendingAuthFail && Refused(e.status)
    ensures RefusedTooLong(b, c, e) ==>
      && Next(b, c, e).state == (if c.lastDisconnectReason == 201 then ApNoAp else ApAuthFail)
      && Next(b, c, e).escalatedToApReason == c.lastDisconnectReason
    ensures !RefusedTooLong(b, c, e) ==> Next(b, c, e).state.Connecting?
  {
    var c1 := Reanchored(c, Millis(e.at));
    assert Next(b, c, e) == Apply(ConnectFailed(b, c1, e, Waited(c, e)), e.ipAtEntry).ctx;
  }

  lemma WhenNotRefused(b: Baked, c: Context, e: Event)
    requires e.Tick? && c.state.Connecting? && !c.pendingAuthFail
    requires e.status != WL_CONNECTED && !Refused(e.status)
    ensures var source := CredentialSource(e.nvs, b);
      Next(b, c, e).state ==
        if NoProgress(c, e) && source.StoredNvs? && IsAuthFailure(c.lastDisconnectReason) then ApAuthFail
        else if NoProgress(c, e) && source.NoCredentials? then ApDefault
        else Connecting
  {
    var c1 := Reanchored(c, Millis(e.at));
    assert Sub32(Millis(e.at), c1.connectStartTime) == Waited(c, e);
  }

  /** Outside a campaign a tick leaves CONNECTING for AP mode exactly in three cases: stored credentials
      refused for more than 30 s, whatever the last reported reason; five minutes without progress and no
      credentials; or five minutes without progress, stored credentials and an authentication reason. */
  lemma EscalatesExactly(b: Baked, c: Context, e: Event)
    requires e.Tick? && c.state.Connecting? && !c.pendingAuthFail
    ensures Next(b, c, e).state.IsAp() <==>
      || RefusedTooLong(b, c, e)
      || (NoProgress(c, e)
          && (CredentialSource(e.nvs, b).NoCredentials?
              || (CredentialSource(e.nvs, b).StoredNvs? && IsAuthFailure(c.lastDisconnectReason))))
  {
    if Refused(e.status) {
      WhenRefused(b, c, e);
    } else if e.status != WL_CONNECTED {
      WhenNotRefused(b, c, e);
    }
  }

  // No authentication failure was reported before step k.
  predicate NoAuthDrop(es: seq<Event>, k: nat)
    requires k <= |es|
  {
    forall m :: 0 <= m < k ==> es[m].Drop? ==> es[m].reason !in {15, 23, 202}
  }

  // The reason of the last disconnect event before step k; 0 as long as there was none.
  function LastReason(es: seq<Event>, k: nat): int
    requires k <= |es|
  {
    if k == 0 then 0 else if es[k - 1].Drop? then es[k - 1].reason else LastReason(es, k - 1)
  }

  /** In every run from boot the recorded reason is that of the last disconnect event of any kind. */
  lemma {:induction false} ReasonIsLastReported(cs: seq<Context>, es: seq<Event>, k: nat)
    requires Obeys(cs, es) && cs[0] == INITIAL && k <= |es|
    ensures cs[k].lastDisconnectReason == LastReason(es, k)
  {
    if k > 0 {
      ReasonIsLastReported(cs, es, k - 1);
      At(cs, es, k - 1);
    }
  }

  // Link-level drops alone never start a campaign.
  lemma {:induction false} NoCampaign(cs: seq<Context>, es: seq<Event>, k: nat)
    requires Obeys(cs, es) && cs[0] == INITIAL && k <= |es| && NoAuthDrop(es, k)
    ensures !cs[k].pendingAuthFail && !IsAuthFailure(cs[k].lastDisconnectReason)
  {
    if k > 0 {
      NoCampaign(cs, es, k - 1);
      At(cs, es, k - 1);
    }
  }

  // Entering an AP mode that reports a failure.
  predicate Escalates(c: Context, c': Context) {
    !c.state.IsAp() && (c'.state.ApAuthFail? || c'.state.ApNoAp?)
  }

  lemma OnlyConnectingEscalates(b: Baked, c: Context, e: Event)
    requires !c.pendingAuthFail && Escalates(c, Next(b, c, e))
    ensures e.Tick? && c.state.Connecting?
  {
  }

  /** The exact condition on the promise that link-level drops never escalate. In a run from boot without an
      authentication failure, a step raises a failure AP mode if and only if it is a tick in CONNECTING that
      finds stored credentials refused for more than 30 s; it reports the last reason, and a scan miss as such. */
  lemma LinkDropsEscalateExactly(b: Baked, cs: seq<Context>, es: seq<Event>, k: nat)
    requires IsRun(b, cs, es) && cs[0] == INITIAL && k < |es| && NoAuthDrop(es, k)
    ensures Escalates(cs[k], cs[k + 1]) <==>
      es[k].Tick? && cs[k].state.Connecting? && RefusedTooLong(b, cs[k], es[k])
    ensures Escalates(cs[k], cs[k + 1]) ==>
      && cs[k + 1].escalatedToApReason == LastReason(es, k)
      && cs[k + 1].state == if LastReason(es, k) == 201 then ApNoAp else ApAuthFail
  {
    RunObeys(b, cs, es);
    NoCampaign(cs, es, k);
    ReasonIsLastReported(cs, es, k);
    var c, e := cs[k], es[k];
    if e.Tick? && c.state.Connecting? {
      if Refused(e.status) {
        WhenRefused(b, c, e);
      } else if e.status != WL_CONNECTED {
        WhenNotRefused(b, c, e);
      }
    } else if Escalates(c, cs[k + 1]) {
      OnlyConnectingEscalates(b, c, e);
    }
  }

  // A stored pair, a beacon timeout (200) while associating, and a refusal 30.001 s after the start.
  const BEACON_LOSS: seq<Event> :=
    [Tick(1, WL_IDLE, "", "", Nvs(true, "net", "secret")), Drop(2, 200),
     Tick(30002, WL_CONNECT_FAILED, "", "", Nvs(true, "net", "secret"))]

  /** The promise fails: a link-level drop followed by 30 s of refusals ends in AP_AUTH_FAIL. */
  lemma LinkDropEscalates(b: Baked, cs: seq<Context>)
    requires IsRun(b, cs, BEACON_LOSS) && cs[0] == INITIAL
    ensures NoAuthDrop(BEACON_LOSS, 2) && cs[2].state.Connecting?
    ensures cs[3].state.ApAuthFail? && cs[3].escalatedToApReason == 200
  {
    var es := BEACON_LOSS;
    assert cs[0 + 1] == Next(b, cs[0], es[0]);
    assert cs[1 + 1] == Next(b, cs[1], es[1]);
    assert cs[1].state.Connecting? && cs[1].connectStartTime == 1;
    assert cs[2] == cs[1].(lastDisconnectReason := 200);
    WhenRefused(b, cs[2], es[2]);
    assert cs[2 + 1] == Next(b, cs[2], es[2]);
  }
}
