/** WiFi provisioning end to end: the host's command frame through the serial framer, the AT dispatcher and
    the credential store to the reader that runs at boot. */
module Provisioning {
  import opened Text
  import opened SerialFramer
  import opened Wrappers
  import WiFiModel

  // ---- credential storage ----

  const CRED_COUNT := "cred_count"
  const SSID_KEY := "ssid_0"
  const PASS_KEY := "pass_0"

  type Store = map<string, string>

  // Which of the three ordered writes the flash accepts.
  datatype Flash = Flash(count: bool, ssid: bool, pass: bool)

  class NvsStore {
    var data: Store

    constructor (data: Store)
      ensures this.data == data
    {
      this.data := data;
    }

    // A failed write reports zero bytes and changes nothing.
    method PutString(key: string, value: string, accepted: bool) returns (written: nat)
      modifies this
      ensures data == if accepted then old(data)[key := value] else old(data)
      ensures written == if accepted then |value| else 0
    {
      written := 0;
      if accepted {
        data := data[key := value];
        written := |value|;
      }
    }

    // The count is written first, the password last; the first failure stops the rest.
    method StoreWifiCredentials(ssid: string, pass: string, flash: Flash) returns (success: bool)
      modifies this
      ensures (data, success) == Stored(old(data), ssid, pass, flash)
    {
      var n := PutString(CRED_COUNT, "1", flash.count);
      success := n > 0;
      if success {
        n := PutString(SSID_KEY, ssid, flash.ssid);
        success := n > 0;
      }
      if success {
        n := PutString(PASS_KEY, pass, flash.pass);
        success := n > 0;
      }
    }
  }

  function Stored(d: Store, ssid: string, pass: string, flash: Flash): (Store, bool) {
    if !flash.count then (d, false)
    else
      var d1 := d[CRED_COUNT := "1"];
      var d2 := if flash.ssid then d1[SSID_KEY := ssid] else d1;
      if !flash.ssid || ssid == "" then (d2, false)
      else (if flash.pass then d2[PASS_KEY := pass] else d2, flash.pass && pass != "")
  }

  function Get(d: Store, key: string): string {
    if key in d then d[key] else ""
  }

  // What the boot reader sees.
  function BootView(d: Store): WiFiModel.Nvs {
    WiFiModel.Nvs(Get(d, CRED_COUNT) != "", Get(d, SSID_KEY), Get(d, PASS_KEY))
  }

  // The credentials the next boot connects with, if they come from NVS.
  function BootCredentials(d: Store, baked: WiFiModel.Baked): Option<(string, string)> {
    if WiFiModel.CredentialSource(BootView(d), baked).StoredNvs? then WiFiModel.Load(BootView(d))
    else None
  }

  lemma KeysDiffer()
    ensures CRED_COUNT != SSID_KEY && CRED_COUNT != PASS_KEY && SSID_KEY != PASS_KEY
  {
    assert |CRED_COUNT| == 10 && |SSID_KEY| == 6 && |PASS_KEY| == 6;
    assert SSID_KEY[0] == 's' && PASS_KEY[0] == 'p';
  }

  /** A reported success is exactly a complete write: from then on the boot reader returns the new pair,
      from NVS, whatever was stored before. */
  lemma StoreSuccessIsReadBack(d: Store, ssid: string, pass: string, flash: Flash, baked: WiFiModel.Baked)
    ensures Stored(d, ssid, pass, flash).1 <==> flash == Flash(true, true, true) && ssid != "" && pass != ""
    ensures Stored(d, ssid, pass, flash).1 ==>
      BootCredentials(Stored(d, ssid, pass, flash).0, baked) == Some((ssid, pass))
  {
    KeysDiffer();
  }

  /** A failed write can leave a torn pair: if only the password write is refused over an existing entry,
      the boot reader pairs the new SSID with the old password. */
  lemma RefusedPasswordTearsThePair(d: Store, ssid: string, pass: string, baked: WiFiModel.Baked)
    requires ssid != "" && Get(d, PASS_KEY) != ""
    ensures !Stored(d, ssid, pass, Flash(true, true, false)).1
    ensures BootCredentials(Stored(d, ssid, pass, Flash(true, true, false)).0, baked)
         == Some((ssid, d[PASS_KEY]))
  {
    KeysDiffer();
  }

  // The next boot connects with a pair that is neither what it would have used before nor what was to be stored.
  predicate Torn(d: Store, ssid: string, pass: string, flash: Flash, baked: WiFiModel.Baked) {
    var after := BootCredentials(Stored(d, ssid, pass, flash).0, baked);
    after.Some? && after != BootCredentials(d, baked) && after != Some((ssid, pass))
  }

  /** When a store leaves a torn pair, for every old content, every pair and every pattern of refused writes.
      With credentials stored before: exactly when only the password write is refused, a different password is
      kept and the SSID really changes. Without a stored count: also when the count is written but the SSID
      refused, over a pair left behind by an earlier life of the store, which the count then revives. */
  lemma TornExactly(d: Store, ssid: string, pass: string, flash: Flash, baked: WiFiModel.Baked)
    ensures var oldSsid, oldPass := Get(d, SSID_KEY), Get(d, PASS_KEY);
      var refusedPass := flash == Flash(true, true, false) && ssid != "" && oldPass != "" && oldPass != pass;
      var revived := flash.count && !flash.ssid && oldSsid != "" && oldPass != "" && (oldSsid, oldPass) != (ssid, pass);
      Torn(d, ssid, pass, flash, baked) <==>
        if Get(d, CRED_COUNT) != "" then refusedPass && oldSsid != ssid else refusedPass || revived
  {
    KeysDiffer();
  }

  /** For a pair the dispatcher accepts, over stored credentials, tearing is also the only way to end up with
      neither the old credentials nor the new ones. */
  lemma OldOrNewUnlessTorn(d: Store, ssid: string, pass: string, flash: Flash, baked: WiFiModel.Baked)
    requires ssid != "" && pass != "" && Get(d, CRED_COUNT) != ""
    ensures var after := BootCredentials(Stored(d, ssid, pass, flash).0, baked);
      after != BootCredentials(d, baked) && after != Some((ssid, pass)) <==>
        && flash == Flash(true, true, false)
        && Get(d, PASS_KEY) !in {"", pass} && Get(d, SSID_KEY) != ssid
  {
    KeysDiffer();
  }

  // ---- AT dispatch ----

  const AT_SPACE: set<char> := {' ', '\t', '\r', '\n'}

  datatype Handler = Atz | Ate | Atsp | Ath | Atcsm | Atma | Atpc | Athelo | Atsetwifi | Atdumpwifi
                   | Atsettoken | Atclearwifi | Ati | Atreboot

  // Registration order.
  const HANDLERS: seq<Handler> :=
    [Atz, Ate, Atsp, Ath, Atcsm, Atma, Atpc, Athelo, Atsetwifi, Atdumpwifi, Atsettoken, Atclearwifi, Ati, Atreboot]

  predicate Matches(h: Handler, cmd: string) {
    match h
    case Atz => cmd == "ATZ"
    case Ate => cmd == "ATE0" || cmd == "ATE1"
    case Atsp => "ATSP" <= cmd
    case Ath => cmd == "ATH0" || cmd == "ATH1"
    case Atcsm => cmd == "ATCSM0" || cmd == "ATCSM1"
    case Atma => cmd == "ATMA"
    case Atpc => cmd == "ATPC"
    case Athelo => cmd == "ATHELO" || cmd == "HELLO"
    case Atsetwifi => "ATSETWIFI" <= cmd
    case Atdumpwifi => cmd == "ATDUMPWIFI"
    case Atsettoken => "ATSETTOKEN" <= cmd
    case Atclearwifi => cmd == "ATCLEARWIFI"
    case Ati => cmd == "ATI"
    case Atreboot => cmd == "ATREBOOT"
  }

  function FirstMatch(handlers: seq<Handler>, cmd: string): Option<Handler> {
    if handlers == [] then None
    else if Matches(handlers[0], cmd) then Some(handlers[0])
    else FirstMatch(handlers[1..], cmd)
  }

  function Normalize(cmd: string): string {
    UpperAll(Trim(cmd, AT_SPACE))
  }

  // The parameters after the 9-character command word; an all-blank tail is left as it is.
  function SetWifiParams(cmd: string): string
    requires |cmd| >= 9
  {
    var tail := Trim(cmd[9..], AT_SPACE);
    if tail == "" then cmd[9..] else tail
  }

  // Split at the first comma, which may not come first.
  function ParseSetWifi(params: string): Option<(string, string)> {
    var comma := IndexOf(params, ',');
    if comma == |params| || comma == 0 then None
    else Some((params[..comma], params[comma + 1..]))
  }

  predicate GoodLengths(ssid: string, pass: string) {
    1 <= |ssid| <= 32 && 1 <= |pass| <= 64
  }

  // The stored state and whether the device reboots, after one dispatched line on a healthy flash.
  function Dispatch(d: Store, cmd: string): (Store, bool) {
    match FirstMatch(HANDLERS, Normalize(cmd))
    case Some(Atsetwifi) =>
      if |cmd| < 9 then (d, false)
      else (match ParseSetWifi(SetWifiParams(cmd))
            case Some((ssid, pass)) =>
              if GoodLengths(ssid, pass) then Stored(d, ssid, pass, Flash(true, true, true)) else (d, false)
            case None => (d, false))
    case Some(Atclearwifi) => (map[], true)
    case Some(Atsettoken) =>
      (d, |cmd| >= 10 && 1 <= |Trim(cmd[10..], AT_SPACE)| <= 64)
    case Some(Atreboot) => (d, true)
    case _ => (d, false)
  }

  // ---- what each command does ----

  lemma {:induction false} FirstMatches(handlers: seq<Handler>, cmd: string)
    requires FirstMatch(handlers, cmd).Some?
    ensures Matches(FirstMatch(handlers, cmd).value, cmd)
  {
    if !Matches(handlers[0], cmd) {
      FirstMatches(handlers[1..], cmd);
    }
  }

  lemma ClearWins(cmd: string)
    requires cmd == "ATCLEARWIFI"
    ensures FirstMatch(HANDLERS, cmd) == Some(Atclearwifi)
  {
    var h := HANDLERS;
    assert cmd[2] == 'C' && |cmd| == 11;
    assert "ATSP"[2] == 'S' && "ATSETWIFI"[2] == 'S' && "ATSETTOKEN"[2] == 'S';
    assert forall k :: 0 <= k < 11 ==> !Matches(h[k], cmd);
    Skip(h, 11, cmd);
    assert h[11..][0] == Atclearwifi;
  }

  lemma TokenWins(cmd: string)
    requires "ATSETTOKEN" <= cmd
    ensures FirstMatch(HANDLERS, cmd) == Some(Atsettoken)
  {
    var h := HANDLERS;
    assert cmd[3] == 'E' && cmd[5] == 'T' && |cmd| >= 10;
    assert "ATSP"[3] == 'P' && "ATSETWIFI"[5] == 'W';
    assert forall k :: 0 <= k < 10 ==> !Matches(h[k], cmd);
    Skip(h, 10, cmd);
    assert h[10..][0] == Atsettoken;
  }

  lemma RebootWins(cmd: string)
    requires cmd == "ATREBOOT"
    ensures FirstMatch(HANDLERS, cmd) == Some(Atreboot)
  {
    var h := HANDLERS;
    assert cmd[2] == 'R' && |cmd| == 8;
    assert "ATSP"[2] == 'S';
    assert forall k :: 0 <= k < 13 ==> !Matches(h[k], cmd);
    Skip(h, 13, cmd);
    assert h[13..][0] == Atreboot;
  }

  lemma SplitAtComma(t: string, ssid: string, pass: string)
    requires Lacks(ssid, ',') && t == ssid + "," + pass
    ensures IndexOf(t, ',') == |ssid| && t[..|ssid|] == ssid && t[|ssid| + 1..] == pass
  {
    assert t[|ssid|] == ',';
    assert forall k :: 0 <= k < |ssid| ==> t[k] == ssid[k];
  }

  // ATSETWIFI accepts exactly a trimmed tail that splits at its first comma into parts of good length.
  predicate Pairs(tail: string, ssid: string, pass: string) {
    && Trim(tail, AT_SPACE) == ssid + "," + pass && Lacks(ssid, ',')
    && 1 <= |ssid| <= 32 && 1 <= |pass| <= 64
  }

  lemma PairsParse(cmd: string, ssid: string, pass: string)
    requires |cmd| >= 9 && Pairs(cmd[9..], ssid, pass)
    ensures ParseSetWifi(SetWifiParams(cmd)) == Some((ssid, pass)) && GoodLengths(ssid, pass)
  {
    SplitAtComma(Trim(cmd[9..], AT_SPACE), ssid, pass);
  }

  lemma ParseIsPair(cmd: string, ssid: string, pass: string)
    requires |cmd| >= 9 && ParseSetWifi(SetWifiParams(cmd)) == Some((ssid, pass)) && GoodLengths(ssid, pass)
    ensures Pairs(cmd[9..], ssid, pass)
  {
    var params := SetWifiParams(cmd);
    ParamsAreTight(cmd[9..], params);
    var i := IndexOf(params, ',');
    assert params == params[..i] + "," + params[i + 1..];
  }

  // What an accepted ATSETWIFI leaves.
  function Written(d: Store, ssid: string, pass: string): Store {
    d["cred_count" := "1"]["ssid_0" := ssid]["pass_0" := pass]
  }

  /** What one command line does to the store, by its text: ATSETWIFI, in any case, writes all three entries and
      reboots, or does nothing; ATCLEARWIFI empties the store and reboots; ATREBOOT and a token of good length only
      reboot; no other line does anything to the store or reboots. */
  lemma DispatchExactly(d: Store, cmd: string)
    ensures var u, o := UpperAll(Trim(cmd, AT_SPACE)), Dispatch(d, cmd);
      && (u == "ATCLEARWIFI" ==> o == (map[], true))
      && (u == "ATREBOOT" ==> o == (d, true))
      && ("ATSETTOKEN" <= u ==> |cmd| >= 10 && o == (d, 1 <= |Trim(cmd[10..], AT_SPACE)| <= 64))
      && ("ATSETWIFI" <= u ==>
            && |cmd| >= 9
            && (forall ssid, pass :: Pairs(cmd[9..], ssid, pass) ==> o == (Written(d, ssid, pass), true))
            && ((forall ssid, pass :: !Pairs(cmd[9..], ssid, pass)) ==> o == (d, false)))
      && (u != "ATCLEARWIFI" && u != "ATREBOOT" && !("ATSETTOKEN" <= u) && !("ATSETWIFI" <= u) ==> o == (d, false))
  {
    var u := Normalize(cmd);
    TrimFacts(cmd, AT_SPACE);
    assert "ATSETWIFI"[2] == 'S' && "ATSETTOKEN"[2] == 'S' && "ATSETWIFI"[5] == 'W' && "ATSETTOKEN"[5] == 'T';
    if FirstMatch(HANDLERS, u).Some? {
      FirstMatches(HANDLERS, u);
    }
    if "ATSETWIFI" <= u {
      SetWifiWins(u);
      SetWifiStores(d, cmd);
      assert u[2] == 'S' && u[5] == 'W';
    } else if "ATSETTOKEN" <= u {
      TokenWins(u);
      assert u[2] == 'S';
    } else if u == "ATCLEARWIFI" {
      ClearWins(u);
    } else if u == "ATREBOOT" {
      RebootWins(u);
    }
  }

  lemma StoredIs(d: Store, ssid: string, pass: string)
    requires ssid != "" && pass != ""
    ensures Stored(d, ssid, pass, Flash(true, true, true)) == (Written(d, ssid, pass), true)
  {
  }

  lemma SetWifiStores(d: Store, cmd: string)
    requires |cmd| >= 9 && FirstMatch(HANDLERS, Normalize(cmd)) == Some(Atsetwifi)
    ensures forall ssid, pass :: Pairs(cmd[9..], ssid, pass) ==> Dispatch(d, cmd) == (Written(d, ssid, pass), true)
    ensures (forall ssid, pass :: !Pairs(cmd[9..], ssid, pass)) ==> Dispatch(d, cmd) == (d, false)
  {
    var r := ParseSetWifi(SetWifiParams(cmd));
    forall ssid, pass | Pairs(cmd[9..], ssid, pass)
      ensures r == Some((ssid, pass)) && GoodLengths(ssid, pass)
    {
      PairsParse(cmd, ssid, pass);
    }
    if r.Some? && GoodLengths(r.value.0, r.value.1) {
      StoredIs(d, r.value.0, r.value.1);
      ParseIsPair(cmd, r.value.0, r.value.1);
    }
  }

  // Lines are dispatched until one reboots the device.
  function DispatchAll(d: Store, lines: seq<string>): Store {
    if lines == [] then d
    else if Dispatch(d, lines[0]).1 then Dispatch(d, lines[0]).0
    else DispatchAll(Dispatch(d, lines[0]).0, lines[1..])
  }

  // ---- the host side ----

  function Command(ssid: string, pass: string): string {
    "ATSETWIFI" + ssid + "," + pass
  }

  function HostFrame(ssid: string, pass: string): string {
    Command(ssid, pass) + [CR]
  }

  // What the device keeps after receiving the host's frame.
  function Provision(d: Store, ssid: string, pass: string, maxLen: nat): Store {
    DispatchAll(d, Frame(HostFrame(ssid, pass), maxLen).lines)
  }

  predicate NoTerminator(s: string) {
    forall i :: 0 <= i < |s| ==> s[i] != '\r' && s[i] != '\n'
  }

  // Credentials the serial protocol can carry with a line budget of maxLen.
  predicate Sendable(ssid: string, pass: string, maxLen: nat) {
    && 1 <= |ssid| <= 32 && 1 <= |pass| <= 64
    && Lacks(ssid, ',') && NoTerminator(ssid) && ssid[0] !in {' ', '\t'}
    && NoTerminator(pass) && pass[|pass| - 1] !in {' ', '\t'}
    && |"ATSETWIFI"| + |ssid| + |","| + |pass| <= maxLen
  }

  lemma SetWifiWins(cmd: string)
    requires "ATSETWIFI" <= cmd
    ensures FirstMatch(HANDLERS, cmd) == Some(Atsetwifi)
  {
    assert cmd[3] == 'E' && |cmd| >= 9;
    assert "ATSP"[3] == 'P';
    var h := HANDLERS;
    assert forall k :: 0 <= k < 8 ==> !Matches(h[k], cmd);
    Skip(h, 8, cmd);
    assert h[8..][0] == Atsetwifi;
  }

  lemma {:induction false} Skip(handlers: seq<Handler>, n: nat, cmd: string)
    requires n <= |handlers| && forall k :: 0 <= k < n ==> !Matches(handlers[k], cmd)
    ensures FirstMatch(handlers, cmd) == FirstMatch(handlers[n..], cmd)
  {
    if n > 0 {
      Skip(handlers[1..], n - 1, cmd);
      assert handlers[1..][n - 1..] == handlers[n..];
    }
  }

  lemma CommandShape(ssid: string, pass: string)
    requires ssid != "" && pass != ""
    ensures var cmd := Command(ssid, pass);
      && |cmd| == 10 + |ssid| + |pass| && cmd[..9] == "ATSETWIFI" && cmd[9..] == ssid + "," + pass
      && cmd[0] == 'A' && cmd[|cmd| - 1] == pass[|pass| - 1]
  {
    assert Command(ssid, pass) == "ATSETWIFI" + (ssid + "," + pass);
  }

  lemma CommandMatches(ssid: string, pass: string)
    requires ssid != "" && pass != "" && pass[|pass| - 1] !in AT_SPACE
    ensures FirstMatch(HANDLERS, Normalize(Command(ssid, pass))) == Some(Atsetwifi)
  {
    var cmd := Command(ssid, pass);
    CommandShape(ssid, pass);
    TrimOfTight(cmd, AT_SPACE);
    var upper := UpperAll(cmd);
    assert upper[..9] == "ATSETWIFI" by {
      var word := "ATSETWIFI";
      forall i | 0 <= i < 9
        ensures upper[i] == word[i]
      {
        assert cmd[i] == cmd[..9][i] == word[i];
        assert 'A' <= word[i] <= 'Z';
      }
    }
    SetWifiWins(upper);
  }

  lemma ParamsParseBack(ssid: string, pass: string)
    requires ssid != "" && pass != "" && Lacks(ssid, ',')
    requires ssid[0] !in AT_SPACE && pass[|pass| - 1] !in AT_SPACE
    ensures SetWifiParams(Command(ssid, pass)) == ssid + "," + pass
    ensures ParseSetWifi(ssid + "," + pass) == Some((ssid, pass))
  {
    var params := ssid + "," + pass;
    CommandShape(ssid, pass);
    assert params[0] == ssid[0] && params[|params| - 1] == pass[|pass| - 1];
    TrimOfTight(params, AT_SPACE);
    assert params[|ssid|] == ',';
    assert forall k :: 0 <= k < |ssid| ==> params[k] == ssid[k];
    assert IndexOf(params, ',') == |ssid|;
    assert params[..|ssid|] == ssid && params[|ssid| + 1..] == pass;
  }

  lemma CommandHasNoTerminator(ssid: string, pass: string, i: nat)
    requires ssid != "" && pass != "" && NoTerminator(ssid) && NoTerminator(pass)
    requires i < |Command(ssid, pass)|
    ensures !IsEol(Command(ssid, pass)[i])
  {
    var cmd, word := Command(ssid, pass), "ATSETWIFI";
    if i < 9 {
      assert cmd[i] == word[i];
      assert 'A' <= word[i] <= 'Z';
    } else if i < 9 + |ssid| {
      assert cmd[i] == ssid[i - 9];
    } else if i > 9 + |ssid| {
      assert cmd[i] == pass[i - 10 - |ssid|];
    }
  }

  // The host's frame reaches the dispatcher as one line.
  lemma FrameArrives(ssid: string, pass: string, maxLen: nat)
    requires Sendable(ssid, pass, maxLen)
    ensures Frame(HostFrame(ssid, pass), maxLen).lines == [Command(ssid, pass)]
  {
    var cmd := Command(ssid, pass);
    forall c | c in cmd
      ensures !IsEol(c)
    {
      var i: nat :| i < |cmd| && cmd[i] == c;
      CommandHasNoTerminator(ssid, pass, i);
    }
    CommandShape(ssid, pass);
    ShortLineVerbatim(cmd, maxLen);
  }

  lemma CommandStores(d: Store, ssid: string, pass: string)
    requires GoodLengths(ssid, pass) && Lacks(ssid, ',')
    requires ssid[0] !in AT_SPACE && pass[|pass| - 1] !in AT_SPACE
    ensures Dispatch(d, Command(ssid, pass)) == Stored(d, ssid, pass, Flash(true, true, true))
  {
    CommandShape(ssid, pass);
    CommandMatches(ssid, pass);
    ParamsParseBack(ssid, pass);
  }

  lemma DeliveredIfSendable(d: Store, ssid: string, pass: string, maxLen: nat, baked: WiFiModel.Baked)
    requires Sendable(ssid, pass, maxLen)
    ensures BootCredentials(Provision(d, ssid, pass, maxLen), baked) == Some((ssid, pass))
  {
    var cmd := Command(ssid, pass);
    FrameArrives(ssid, pass, maxLen);
    CommandStores(d, ssid, pass);
    StoreSuccessIsReadBack(d, ssid, pass, Flash(true, true, true), baked);
    var lines := [cmd];
    assert DispatchAll(d, lines) == Dispatch(d, lines[0]).0;
  }

  // Whatever ATSETWIFI accepts from a short line was sendable.
  lemma AcceptedIsSendable(cmd: string, ssid: string, pass: string, maxLen: nat)
    requires 9 <= |cmd| <= maxLen && NoTerminator(cmd)
    requires ParseSetWifi(SetWifiParams(cmd)) == Some((ssid, pass)) && GoodLengths(ssid, pass)
    ensures Sendable(ssid, pass, maxLen)
  {
    var params := SetWifiParams(cmd);
    ParamsLackTerminators(cmd, params);
    var comma := IndexOf(params, ',');
    assert ssid == params[..comma] && pass == params[comma + 1..];
    assert ssid[0] == params[0] && pass[|pass| - 1] == params[|params| - 1];
  }

  lemma ParamsLackTerminators(cmd: string, params: string)
    requires |cmd| >= 9 && NoTerminator(cmd) && params == SetWifiParams(cmd) && !Lacks(params, ',')
    ensures NoTerminator(params) && params != "" && Tight(params, AT_SPACE) && |params| <= |cmd| - 9
  {
    ParamsAreTight(cmd[9..], params);
    forall i | 0 <= i < |params|
      ensures !IsEol(params[i])
    {
      PartOfCommand(cmd, params[i]);
    }
  }

  lemma PartOfCommand(cmd: string, c: char)
    requires |cmd| >= 9 && NoTerminator(cmd) && c in cmd[9..]
    ensures !IsEol(c)
  {
    var tail := cmd[9..];
    var j :| 0 <= j < |tail| && tail[j] == c;
    assert tail[j] == cmd[9 + j];
  }

  // Parameters holding a comma were trimmed on both sides.
  lemma ParamsAreTight(tail: string, params: string)
    requires params == if Trim(tail, AT_SPACE) == "" then tail else Trim(tail, AT_SPACE)
    requires !Lacks(params, ',')
    ensures params != "" && Within(params, tail) && Tight(params, AT_SPACE) && params == Trim(tail, AT_SPACE)
  {
    TrimFacts(tail, AT_SPACE);
    if Trim(tail, AT_SPACE) == "" {
      AllBlank(tail, AT_SPACE);
    }
  }

  lemma {:induction false} AllBlank(s: string, ws: set<char>)
    requires Trim(s, ws) == ""
    ensures forall i :: 0 <= i < |s| ==> s[i] in ws
  {
    var l := TrimLeft(s, ws);
    TrimLeftFacts(s, ws);
    if l != "" {
      BlankRight(l, ws);
    }
    BlankLeft(s, ws);
  }

  lemma {:induction false} BlankLeft(s: string, ws: set<char>)
    requires TrimLeft(s, ws) == ""
    ensures forall i :: 0 <= i < |s| ==> s[i] in ws
  {
    if s != "" {
      BlankLeft(s[1..], ws);
    }
  }

  lemma {:induction false} BlankRight(s: string, ws: set<char>)
    requires TrimRight(s, ws) == ""
    ensures forall i :: 0 <= i < |s| ==> s[i] in ws
  {
    if s != "" {
      BlankRight(s[..|s| - 1], ws);
    }
  }

  // The boot reader finds what it found in d0, or a pair that is sendable within the budget, or none.
  ghost predicate OldOrSendable(d0: Store, d: Store, maxLen: nat) {
    || BootView(d) == BootView(d0)
    || (Get(d, SSID_KEY) != "" && Get(d, PASS_KEY) != "" ==> Sendable(Get(d, SSID_KEY), Get(d, PASS_KEY), maxLen))
  }

  lemma DispatchIsLegit(d0: Store, d: Store, cmd: string, maxLen: nat)
    requires OldOrSendable(d0, d, maxLen) && |cmd| <= maxLen && NoTerminator(cmd)
    ensures OldOrSendable(d0, Dispatch(d, cmd).0, maxLen)
  {
    KeysDiffer();
    if FirstMatch(HANDLERS, Normalize(cmd)) == Some(Atsetwifi) && |cmd| >= 9 {
      var parsed := ParseSetWifi(SetWifiParams(cmd));
      if parsed.Some? && GoodLengths(parsed.value.0, parsed.value.1) {
        AcceptedIsSendable(cmd, parsed.value.0, parsed.value.1, maxLen);
      }
    }
  }

  lemma {:induction false} DispatchAllIsLegit(d0: Store, d: Store, lines: seq<string>, maxLen: nat)
    requires OldOrSendable(d0, d, maxLen)
    requires forall k :: 0 <= k < |lines| ==> |lines[k]| <= maxLen && NoTerminator(lines[k])
    ensures OldOrSendable(d0, DispatchAll(d, lines), maxLen)
    decreases |lines|
  {
    if lines != [] {
      DispatchIsLegit(d0, d, lines[0], maxLen);
      if !Dispatch(d, lines[0]).1 {
        DispatchAllIsLegit(d0, Dispatch(d, lines[0]).0, lines[1..], maxLen);
      }
    }
  }

  /** End to end, on a healthy flash, for every old content of the store, every pair of strings and every line
      budget: a sendable pair is what the next boot reads back; and if the next boot reads back the pair the host
      sent, then it is sendable within that budget or was already stored. So a new pair is delivered if and only
      if it is sendable. */
  lemma ProvisioningRoundTrip(d: Store, ssid: string, pass: string, maxLen: nat, baked: WiFiModel.Baked)
    ensures var delivered := BootCredentials(Provision(d, ssid, pass, maxLen), baked) == Some((ssid, pass));
      && (Sendable(ssid, pass, maxLen) ==> delivered)
      && (delivered ==> Sendable(ssid, pass, maxLen) || BootCredentials(d, baked) == Some((ssid, pass)))
  {
    if Sendable(ssid, pass, maxLen) {
      DeliveredIfSendable(d, ssid, pass, maxLen, baked);
    }
    var frame := HostFrame(ssid, pass);
    DispatchedLinesAreShort(frame, maxLen);
    var lines := Frame(frame, maxLen).lines;
    forall k | 0 <= k < |lines|
      ensures |lines[k]| <= maxLen && NoTerminator(lines[k])
    {
      assert forall i :: 0 <= i < |lines[k]| ==> lines[k][i] in lines[k];
    }
    DispatchAllIsLegit(d, d, lines, maxLen);
  }

  const DEPLOYED_BUDGET: nat := 64

  /** The sketch installs a budget of 64, so a new pair within the accepted lengths is lost as soon as SSID and
      password together exceed 54 characters: the longest SSID leaves room for 22 of the 64. */
  lemma DeployedBudgetLosesLongPairs(d: Store, ssid: string, pass: string, baked: WiFiModel.Baked)
    requires Sendable(ssid, pass, 106) && BootCredentials(d, baked) != Some((ssid, pass))
    ensures BootCredentials(Provision(d, ssid, pass, DEPLOYED_BUDGET), baked) == Some((ssid, pass))
       <==> |ssid| + |pass| <= 54
  {
    ProvisioningRoundTrip(d, ssid, pass, DEPLOYED_BUDGET, baked);
  }
}
