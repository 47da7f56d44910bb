# Verified model of the CAN-to-WiFi bridge and its host client

The repository is firmware for an ESP32 CAN-to-WiFi bridge and the host programs around it. This project models its
stateful and text-processing core in Dafny and proves what its documentation and tests promise, over all inputs, all
interleavings of events and all chunkings of byte streams. `dafny verify dfyconfig.toml` checks everything.

| file | what it holds |
|---|---|
| `Machine.dfy`, `Wrappers.dfy`, `Text.dfy` | machine integers and the wrapping clock; optional values; hex, trimming, searching and delimiter splitting |
| `WiFiModel.dfy`, `WiFiManager.dfy`, `WiFiMain.dfy` | the WiFi lifecycle as a step relation, the class that updates its context in place, and the main loop that ties the class to runs |
| `WiFiSteps.dfy`, `WiFiCalls.dfy`, `WiFiRuns.dfy`, `WiFiEscalation.dfy`, `WiFiRetries.dfy` | flat step relations, the calls a step makes, whole-run safety, campaign, rate, recovery and rebind properties, when CONNECTING is given up, and when attempts are made |
| `OtaModel.dfy`, `OtaServer.dfy`, `OtaRuns.dfy` | the OTA upload machine: specification, stateful server, properties of event sequences |
| `TcpSession.dfy`, `PacketFramers.dfy`, `PacketStretches.dfy`, `SerialFramer.dfy` | the incremental framers, their batch specifications, and a packet pass by positions |
| `Provisioning.dfy` | host command, framer, dispatcher, credential store and boot reader, end to end |
| `CanText.dfy`, `Obd2Response.dfy` | the CAN frame's text form and back; OBD-II response decoding |
| `Pacer.dfy`, `StatusReader.dfy`, `Discovery.dfy` | replay pacing, heartbeat reading and filtering, discovery packets |
| `SonarConfig.dfy`, `SonarPlacement.dfy`, `DbcAggregate.dfy` | the properties regenerator and its closed form; the signal-database builder |

How to read it. Code that updates state is a class or a method with loops, proved equal to a specification function;
the lemmas are about that function, about runs of it, or about several components together. The environment (radio
status, IP addresses, flash contents and failures, sockets, clocks, sleep overshoot, iteration order of hash sets) is
an arbitrary input. True time is an unbounded number of milliseconds; the firmware sees only its value modulo 2^32 and
subtracts in 32 bits, so the timing results include clock wraps. Calls on radio, updater, flash and sockets are logged
in order in a field `fx`.

Where code and comments disagree the model follows the code:

- A campaign is documented as bounded. An auth event during its first pass restarts it (`firmware/vanilla/WiFiManager.cpp:705-707`); it is bounded exactly from its last restart on (`WiFiRuns.EveryCampaign`).
- The first strategy after an auth event is documented to fire promptly (`firmware/vanilla/WiFiManager.cpp:720`). It does unless the clock has just started or wrapped (`WiFiRetries.ArmedFiresExactly`).
- The code table has a 401 for a missing signature (`firmware/vanilla/OtaUpdateServer.cpp:297-315`); no request is ever answered with it (`OtaRuns.ReplyExactly`).
- The reason reported on exhaustion is called the true auth reason (`firmware/vanilla/WiFiManager.cpp:528`); it is the last reported one (`WiFiEscalation.ReasonIsLastReported`).
- Link-level drops are documented never to escalate to AP mode (`firmware/vanilla/WiFiManager.cpp:365-372`). They do after 30 s of refused associations (`firmware/vanilla/WiFiManager.cpp:152-166`) and only then: `WiFiEscalation.LinkDropEscalates` is an input, `WiFiEscalation.LinkDropsEscalateExactly` the condition.
- A long outage is documented to rebind the socket (`firmware/vanilla/WiFiManager.h:221`). The drop time is stamped by the polled drop only (`firmware/vanilla/WiFiManager.cpp:272-275`), so after a disconnect event the rule measures from an older drop or not at all: `WiFiRuns.RebindExactly` and `WiFiRuns.EventOutageRebinds` are the conditions, `WiFiRuns.LongOutageWithoutRebind` an input.
- The AP timer uses 0 for "not armed", so a tick that reads 0 from the wrapped clock arms nothing; `WiFiRuns.ApRecoveryFires` asks for a non-zero reading.
- An over-long serial line is said to be discarded in full; its remainder is dispatched (`SerialFramer.LeftOverIsRemainder`).
- The packet framer clears a trailing first header byte together with noise; `PacketFramers.ChunkingIsInvisible` and `PacketFramers.NoiseChunkingExactly` say when reads matter.
- Heartbeats are said to be hidden from the acknowledgement search; a heartbeat cut by a read is not (`StatusReader.AckDependsOnChunking`).
- A store that fails half-way can leave or revive a pair that nobody provisioned (`Provisioning.TornExactly`).
- A success reply can stand for no boot at all: outside the upload grammar a 200 means a verified boot exactly when an END was among the events (`OtaRuns.SuccessMeansBootExactly`, `OtaRuns.SessionSuccessMeansBoot`).
- The regenerator documents idempotence; it holds exactly for stable values (`SonarConfig.RegenerationIsIdempotent`).
- The deployed serial budget is smaller than the longest credentials the dispatcher accepts (`Provisioning.DeployedBudgetLosesLongPairs`).

## Model

| member | source | states |
|---|---|---|
| `WiFiManagerImpl.WiFiManager.ExecuteDisconnected` | firmware/vanilla/WiFiManager.cpp:26-66 | From boot: credentials decide between CONNECTING with the budget stamped, the default access point, and staying; new state, radio calls and unchanged fields are those of the step relation |
| `WiFiManagerImpl.WiFiManager.HandleConnected` | firmware/vanilla/WiFiManager.cpp:123-143 | A connection clears campaign, counters and pending reconnect, resets discovery, and asks for a socket restart exactly when the rebind rule says so |
| `WiFiManagerImpl.WiFiManager.HandleConnectFailed` | firmware/vanilla/WiFiManager.cpp:152-184 | Stored credentials failing for more than 30 s raise the access point (NO_AP for a scan miss); otherwise a due retry disconnects and begins again |
| `WiFiManagerImpl.WiFiManager.HandleIdleStatus` | firmware/vanilla/WiFiManager.cpp:190-207 | An idle radio is re-begun on the retry cadence and nothing else changes |
| `WiFiManagerImpl.WiFiManager.HandleInitialConnectTimeout` | firmware/vanilla/WiFiManager.cpp:215-252 | After five minutes only an auth failure with stored credentials, or no credentials at all, leaves CONNECTING |
| `WiFiManagerImpl.WiFiManager.ExecuteConnecting` | firmware/vanilla/WiFiManager.cpp:81-117 | The first tick after a drop re-anchors the budget before any branch reads it; dispatch on the radio status |
| `WiFiManagerImpl.WiFiManager.ExecuteConnectedSta` | firmware/vanilla/WiFiManager.cpp:265-278 | A lost link or a 0.0.0.0 address is a drop: CONNECTING, reconnect pending, drop time stamped |
| `WiFiManagerImpl.WiFiManager.ExecuteConnectedAp` | firmware/vanilla/WiFiManager.cpp:290-349 | AP mode arms its timer on one tick and re-associates five minutes later; the default access point never does |
| `WiFiManagerImpl.WiFiManager.AdvanceRotation` | firmware/vanilla/WiFiManager.cpp:506-515 | Advances index, then loop, and counts the attempt |
| `WiFiManagerImpl.WiFiManager.RunAuthCampaign` | firmware/vanilla/WiFiManager.cpp:467-558 | One campaign tick: success, not yet due, next strategy, or exhaustion into AP_AUTH_FAIL |
| `WiFiManagerImpl.WiFiManager.ApplyStateTransition` | firmware/vanilla/WiFiManager.cpp:871-915 | Commits a transition: records the IP on entering CONNECTED, clears the AP timer on entering AP mode, raises the flag and fires callbacks only on a change of state |
| `WiFiManagerImpl.WiFiManager.Update` | firmware/vanilla/WiFiManager.cpp:588-610 | A whole main-loop pass equals the model's step, in context and in calls made |
| `WiFiManagerImpl.WiFiManager.OnDisconnected` | firmware/vanilla/WiFiManager.cpp:662-750 | The disconnect callback, which has no clock: arms the campaign on auth failures, re-enters CONNECTING from CONNECTED, touches nothing else |
| `WiFiMain.MainLoop` | firmware/vanilla/WiFiManager.cpp:588-750 | Driven by any interleaving of ticks and events, the stateful manager goes through the contexts of a run from boot, making exactly the step's calls; so the run properties below hold of it |
| `WiFiSteps.Summarise` | firmware/vanilla/WiFiManager.cpp:81-349 | Every step from every context keeps the reachability invariant and obeys the budget, retry, AP-timer, rebind and reason relations |
| `WiFiCalls.CallsFollowState` | firmware/vanilla/WiFiManager.cpp:26-349 | On every tick any association uses the stored pair if complete, else the baked-in one; the access point is raised whenever AP mode is entered and only on the way into it; the network clock is started exactly on entering CONNECTED; the TCP restart is requested only there, with the flag up |
| `WiFiRuns.ConnectedIsClean` | firmware/vanilla/WiFiManager.cpp:123-143 | In every reachable state CONNECTED means no campaign, zero strategy counters, zero attempts, nothing pending |
| `WiFiRuns.RejoinBudget` | firmware/vanilla/WiFiManager.cpp:81-166 | However CONNECTING was entered, a fallback to AP mode not made by campaign exhaustion comes strictly more than 30 s of true time after the entry, across clock wraps |
| `WiFiRuns.CampaignTickLowersRank` | firmware/vanilla/WiFiManager.cpp:506-558 | Each unconnected retry tick lowers 3*(3-loop)-index by exactly one; the last one, and only it, ends in AP_AUTH_FAIL with the campaign cleared and the last reported reason recorded |
| `WiFiRuns.DropsNeverExtend` | firmware/vanilla/WiFiManager.cpp:690-732 | From the second pass on no disconnect event raises the rank; in the first pass an auth event restores the full budget |
| `WiFiRuns.EveryCampaign` | firmware/vanilla/WiFiManager.cpp:506-558 | Every campaign of every run, whatever events it meets short of a connection, ends in AP_AUTH_FAIL exactly when its budget has been spent since its last restart, and not before: nine attempts, restartable by an auth event exactly while fewer than three are made, or one attempt if the campaign before it gave up and nothing connected since |
| `WiFiRuns.CampaignStrategies` | firmware/vanilla/WiFiManager.cpp:487-558 | Attempt n of a nine-attempt campaign, counted from its last restart, makes exactly the radio calls of strategy n mod 3; the last attempt of any campaign raises the access point; all other steps are silent |
| `WiFiRuns.RetryRateBound` | firmware/vanilla/WiFiManager.cpp:818-833 | With no disconnect event and no connection, retries of all three sites between times a and b number at most 6 + floor((b-a)/5000) |
| `WiFiRuns.ApRecoveryNotEarly` | firmware/vanilla/WiFiManager.cpp:312-349 | After entering AP mode CONNECTING is not re-entered, short of a connection, before 300000 ms |
| `WiFiRuns.ApRecoveryFires` | firmware/vanilla/WiFiManager.cpp:312-349 | With no events, the tick that leaves AP mode is exactly the first one at least 300000 ms after the one that armed the timer |
| `WiFiRuns.NewIpRebinds` | firmware/vanilla/WiFiManager.cpp:850-912 | A connection whose IP differs from the one recorded at the previous connection raises the TCP-restart flag |
| `WiFiRuns.RebindExactly` | firmware/vanilla/WiFiManager.cpp:123-143 | For every connection of every run from boot: the restart flag is up afterwards exactly when it was before, it is the first connection, the IP differs from the one recorded last, or more than 30000 ms lie between the last polled drop of any outage and now |
| `WiFiRuns.PolledOutageRebinds` | firmware/vanilla/WiFiManager.cpp:850-869 | After a polled drop, back on the recorded IP, the flag is up exactly when it was already or the outage lasted more than 30000 ms of true time (within one clock wrap, the clock not reading 0 at the drop) |
| `WiFiRuns.EventOutageRebinds` | firmware/vanilla/WiFiManager.cpp:725-743 | After a disconnect event, back on the recorded IP, the outage's length plays no part: the flag is up exactly when a link-level event raised it and nothing cleared it, or an earlier polled drop is more than 30000 ms ago |
| `WiFiRuns.LongOutageWithoutRebind` | firmware/vanilla/WiFiManager.h:221 | So the promised rebind after a long outage fails: a connection ended by an auth event and back ten minutes later leaves the flag down |
| `WiFiRuns.SameIpBlipKeepsSocket` | firmware/vanilla/WiFiManager.cpp:850-912 | A polled drop that reconnects within 30000 ms on the recorded IP: no tick up to the connection changes the flag and no event raises it |
| `WiFiEscalation.EscalatesExactly` | firmware/vanilla/WiFiManager.cpp:152-252 | Outside a campaign a tick leaves CONNECTING for AP mode exactly when stored credentials were refused for more than 30 s, whatever the last reason, or five minutes brought no progress and there are no credentials, or stored ones and an auth reason |
| `WiFiEscalation.LinkDropsEscalateExactly` | firmware/vanilla/WiFiManager.cpp:365-391 | The exact condition on the promise that link-level drops never escalate: in a run from boot without an auth event, a failure AP mode is raised if and only if a tick in CONNECTING finds stored credentials refused for more than 30 s |
| `WiFiEscalation.LinkDropEscalates` | firmware/vanilla/WiFiManager.h:356-364 | The promise fails: a beacon timeout (200) while associating, then a refusal after 30001 ms, ends in AP_AUTH_FAIL reporting 200 |
| `WiFiEscalation.ReasonIsLastReported` | firmware/vanilla/WiFiManager.cpp:528 | In every run from boot the recorded reason is that of the last disconnect event of any kind, so a campaign can report a link-level reason |
| `WiFiRetries.AttemptExactly` | firmware/vanilla/WiFiManager.cpp:152-207 | Outside a campaign a tick in CONNECTING makes an attempt if and only if the radio is idle within five minutes, or refuses while stored credentials are not refused for more than 30 s, and fewer than five attempts were made or the last is at least 5000 ms old; it is counted, stamped, drops a refused association first and begins with the right pair |
| `WiFiRetries.CampaignAttemptExactly` | firmware/vanilla/WiFiManager.cpp:405-558 | In a campaign the same condition decides; strategy 0 associates again, 1 drops the association and resets station mode, 2 cycles the radio, the rotation moves by one, and the ninth attempt raises the access point |
| `WiFiRetries.AttemptsKeepComing` | firmware/vanilla/WiFiManager.cpp:818-833 | The lower bound that matches RetryRateBound: while the manager keeps trying, with ticks at most g ms apart and no disconnect event, n attempts over a time T satisfy T < n*(5000+g) + 5000, across clock wraps |
| `WiFiRetries.CampaignIsBrief` | firmware/vanilla/WiFiManager.cpp:467-558 | So a campaign that meets neither a connection nor an event is over within 8*(5000+g) + 5000 ms |
| `WiFiRetries.LossIsRetriedAtOnce` | firmware/vanilla/WiFiManager.cpp:735-743 | In every run the first idle or refusing tick after CONNECTED was lost, by the poll or by a link-level event, makes an attempt at once |
| `WiFiRetries.ArmedFiresExactly` | firmware/vanilla/WiFiManager.cpp:720 | The first strategy after an auth event, documented to fire promptly, fires at the next tick if and only if fewer than five attempts were made or the clock reads at least 5000 |
| `WiFiRetries.FromDisconnected` | firmware/vanilla/WiFiManager.cpp:26-66 | From boot a complete stored pair, or without stored credentials a baked-in one, leads to CONNECTING with exactly these calls; an incomplete stored pair leads nowhere; none raises the default access point |
| `WiFiRetries.ConnectedExactly` | firmware/vanilla/WiFiManager.cpp:81-278 | A tick ends in CONNECTED exactly when the radio is connected and CONNECTING or a campaign waited for it, or CONNECTED still has an address |
| `WiFiRetries.EntryExactly` | firmware/vanilla/WiFiManager.cpp:123-143 | Entering CONNECTED restarts discovery, restarts the socket exactly by the rebind rule, starts the network clock, and clears campaign and counters |
| `WiFiRetries.RecoveryCalls` | firmware/vanilla/WiFiManager.cpp:312-349 | A recovery from AP mode switches to station mode, associates with the right pair and stamps budget and retry clock |
| `Machine.ElapsedSound` | firmware/vanilla/WiFiManager.cpp:98 | A difference of two wrapped millisecond stamps never exceeds the true duration and is exact below one wrap |
| `OtaServerImpl.OtaUpdateServer.ParseHexSig` | firmware/vanilla/OtaUpdateServer.cpp:268-277 | Accepts exactly 128 hex digits; a refused header has still overwritten the buffer with its leading valid pairs |
| `OtaServerImpl.OtaUpdateServer.VerifyPartition` | firmware/vanilla/OtaUpdateServer.cpp:221-257 | The chunk loop makes exactly the calls, and returns exactly the verdict, of the recursive specification under the buffered signature |
| `OtaServerImpl.OtaUpdateServer.HandleUpload` | firmware/vanilla/OtaUpdateServer.cpp:134-219 | START, WRITE, END and ABORTED change the server and make calls exactly as the step relation says |
| `OtaServerImpl.OtaUpdateServer.HandlePost` | firmware/vanilla/OtaUpdateServer.cpp:87-125 | The reply code is decided by searching the pending error's message, then by the updater's own error flag; errors are notified, success is flushed ten times before the client is stopped |
| `OtaRuns.VerifyExact` | firmware/vanilla/OtaUpdateServer.cpp:221-257 | Verification succeeds exactly when the image fits, every chunk reads and feeds, and the checker accepts the first totalSize bytes; it has then read and fed bytes [0,totalSize), each once, in order |
| `OtaRuns.BootOnlyAfterVerification` | firmware/vanilla/OtaUpdateServer.cpp:183-211 | Any boot switch happens at the END of a healthy upload, for the partition that same END verified, after feeding exactly its first totalSize bytes |
| `OtaRuns.BootUsesSessionSignature` | firmware/vanilla/OtaUpdateServer.cpp:134-219 | The signature a boot switch was checked against is the one parsed at that session's START, and no event in between reported an error |
| `OtaRuns.ErrorsAreSticky` | firmware/vanilla/OtaUpdateServer.cpp:163-183 | After an error nothing is written, finalised or booted until the next START |
| `OtaRuns.WritesKeepHealth` | firmware/vanilla/OtaUpdateServer.cpp:166-179 | A run of WRITEs stays healthy exactly when each one came in time and was written whole |
| `OtaRuns.SuccessReplyExact` | firmware/vanilla/OtaUpdateServer.cpp:87-219 | Under the grammar START, WRITE*, (END or ABORTED), POST the client is told success if and only if every step succeeded, the flashed image verified under that START's signature, and the boot switch returned 0 |
| `OtaRuns.ChunkExactly` | firmware/vanilla/OtaUpdateServer.cpp:163-179 | In true time: on a healthy server a chunk less than one clock wrap after its START is handed to the updater if and only if it comes within 300000 ms, and a later one aborts the upload as timed out; a chunk not taken whole fails the upload |
| `OtaRuns.SuccessReplyInTime` | firmware/vanilla/OtaUpdateServer.cpp:87-219 | The success reply over true times: every chunk was taken whole within 300000 ms of the START, and everything else as in SuccessReplyExact |
| `OtaRuns.StartExactly` | firmware/vanilla/OtaUpdateServer.cpp:134-165 | A START forgets the session before it and fails for the first of: library not ready, header not 128 hex digits, updater not begun |
| `OtaRuns.EndExactly` | firmware/vanilla/OtaUpdateServer.cpp:183-219 | An END reports the first stage that fails and aborts the updater exactly when the image does not verify; ABORTED always aborts |
| `OtaRuns.ReplyExactly` | firmware/vanilla/OtaUpdateServer.cpp:87-125 | The whole reply: 403 for a signature or library error, 400 for any other, so the 401 of a missing signature is never sent; success is flushed ten times before the client is stopped |
| `OtaRuns.PostAloneSucceeds` | firmware/vanilla/OtaUpdateServer.cpp:87-125 | From any state the reply is 200 exactly when no error is pending and the updater reports none |
| `OtaRuns.SuccessMeansBootExactly` | firmware/vanilla/OtaUpdateServer.cpp:87-219 | In any event sequence: over a stretch without a START before a POST answered 200 every END booted the image it verified, so some verified image was booted if and only if the stretch holds an END |
| `OtaRuns.SessionSuccessMeansBoot` | firmware/vanilla/OtaUpdateServer.cpp:87-219 | Behind the last START a 200 stands for the successful boot of an image verified under that START's signature if and only if an END came in between |
| `TcpSession.TcpServerManager.DispatchLines` | firmware/vanilla/TcpServerManager.cpp:144-163 | The erase loop reacts to each CR-terminated line once, in order, and keeps the unterminated rest |
| `TcpSession.TcpServerManager.Adopt` | firmware/vanilla/TcpServerManager.cpp:64-116 | An arrival always replaces the current client, then is kept or stopped by its first line |
| `TcpSession.TcpServerManager.Cycle` | firmware/vanilla/TcpServerManager.cpp:57-187 | One tick: adopt, read, or clean up after a drop, exactly as the step relation says |
| `TcpSession.TcpServerManager.Stop` | firmware/vanilla/TcpServerManager.cpp:203-212 | Stopping releases the held socket |
| `TcpSession.HeldClientAuthenticated` | firmware/vanilla/TcpServerManager.cpp:64-116 | In every run a held client is the latest arrival and its first line was AUTH with the token of that moment; the carry-over never holds a CR |
| `TcpSession.ArrivalExactly` | firmware/vanilla/TcpServerManager.cpp:64-116 | An arrival whose first line, trimmed, is exactly AUTH and the token is told OK, held with nothing carried over, and streamed to; any other is told ERROR unauthorized, stopped and not held; a client held before is stopped either way |
| `TcpSession.ReleaseExactly` | firmware/vanilla/TcpServerManager.cpp:169-212 | A dropped client is released with the stream off, discovery restarted and the drop reported; a shutdown stops the held client; without a client nothing happens |
| `TcpSession.NoSocketLeftOpen` | firmware/vanilla/TcpServerManager.cpp:57-187 | A client no longer held was stopped in that step unless its own socket had dropped; a refused arrival is stopped at once |
| `TcpSession.SessionIsBatch` | firmware/vanilla/TcpServerManager.cpp:118-167 | However chunked over ticks, what a session dispatches and answers is the reaction to the CR-split of all bytes read after its AUTH line, and of nothing else |
| `TcpSession.EveryLineOnce` | firmware/vanilla/TcpServerManager.cpp:146-163 | Dispatched commands, and PONGs read back as the PINGs they answer, spell the trimmed non-blank lines in order; a PING is always answered to its own client and flushed, never dispatched |
| `Text.SplitIsExact` | firmware/vanilla/TcpServerManager.cpp:145-148 | The batch split loses nothing: pieces closed by the delimiter, and the rest, spell the input |
| `Text.SplitAppend` | firmware/vanilla/TcpServerManager.cpp:139-148 | Splitting a prefix, then its rest with what follows, is splitting the whole: the reason a carry-over suffices |
| `Text.PiecesLack` | firmware/vanilla/TcpServerManager.cpp:145-148 | No piece contains the delimiter |
| `Text.TrimExactly` | firmware/vanilla/TcpServerManager.cpp:22-36 | Trimming drops exactly the blanks at both ends: the text is the result between blanks, and the result has none at its ends |
| `Text.HexTable` | firmware/vanilla/OtaUpdateServer.cpp:261-266 | The sixteen hex digits and their values, in either case |
| `Text.UpperExactly` | firmware/vanilla/AtCommandDispatcher.cpp:320-321 | Upper-casing changes the 26 small letters and nothing else |
| `Text.PairBytesCaseBlind` | firmware/vanilla/OtaUpdateServer.cpp:268-277 | Hex text means the same bytes in upper and lower case |
| `PacketFramers.CalculateChecksum` | src/ble/TeslaBLETransport.cpp:131-138 | The loop returns the sum of all bytes but the last, modulo 256 |
| `PacketFramers.ValidatePacket` | src/ble/TeslaBLETransport.cpp:107-129 | Accepts exactly header, length and checksum agreeing |
| `PacketFramers.TeslaTransport.ExtractCompletePackets` | src/ble/TeslaBLETransport.cpp:140-199 | The in-place loop forwards and keeps exactly what the recursive extraction says, and terminates |
| `PacketFramers.TeslaTransport.ProcessIncomingData` | src/ble/TeslaBLETransport.cpp:98-105 | A notification is appended before extraction |
| `PacketFramers.Reassembly` | src/ble/TeslaBLETransport.cpp:98-199 | For any valid packets and any chunking of their concatenation exactly those packets are forwarded, in order, and the buffer ends empty |
| `PacketFramers.NothingInvented` | src/ble/TeslaBLETransport.cpp:98-199 | On any byte stream, everything forwarded is a valid packet and the packets are disjoint stretches of the input in order |
| `PacketStretches.ValidExactly` | src/ble/TeslaBLETransport.cpp:107-138 | The valid packets are exactly 0xAA, 0x55, the length, a payload of that length up to 255, and the sum of all that modulo 256 |
| `PacketStretches.PassExactly` | src/ble/TeslaBLETransport.cpp:140-199 | What one pass takes from any buffer, by positions: stretch after stretch, each from the next header bytes over its announced length, valid or not; the valid ones are forwarded in order and the rest is what cannot be decided yet |
| `PacketFramers.PassSplits` | src/ble/TeslaBLETransport.cpp:140-199 | One pass over a + b forwards what a pass over a, then a pass over its rest with b, forward, unless the cut separates the two header bytes |
| `PacketFramers.ChunkingIsInvisible` | src/ble/TeslaBLETransport.cpp:98-199 | For every byte stream, clean or noisy: if no boundary between reads separates the two header bytes, what is forwarded is what one pass over the whole stream forwards |
| `PacketFramers.NoiseChunkingMatters` | src/ble/TeslaBLETransport.cpp:156-160 | After any header-free run of three or more bytes, a cut between the two header bytes of a valid packet loses the packet that an uncut read forwards |
| `PacketFramers.NoiseChunkingExactly` | src/ble/TeslaBLETransport.cpp:143-160 | Behind a header-free run every way of cutting the stream forwards the packet if and only if the run is shorter than three bytes |
| `PacketFramers.Obd2Transport.ExtractCleanResponses` | src/ble/OBD2Transport.cpp:105-136 | The in-place loops forward the prompt-terminated pieces without trailing CRs, and keep the rest |
| `PacketFramers.FramerIsBatchSplit` | src/ble/OBD2Transport.cpp:96-136 | For every byte stream and chunking the framer agrees with a batch split-and-strip at the prompts |
| `PacketFramers.ResponsesExactly` | src/ble/OBD2Transport.cpp:105-136 | The responses, exactly: in order, one for each piece that is more than CRs, without the CRs at its end |
| `SerialFramer.SerialCommandFramer.HandleByte` | firmware/vanilla/SerialCommandFramer.cpp:20-38 | One byte: dispatch, skip, push, or clear on overflow |
| `SerialFramer.SerialCommandFramer.Drain` | firmware/vanilla/SerialCommandFramer.cpp:8-18 | Draining in any portions leaves the buffer and the dispatched lines of the whole input |
| `SerialFramer.FramerExact` | firmware/vanilla/SerialCommandFramer.cpp:8-38 | For every input and budget: split at CR and LF; of each piece only what follows the last overflow is dispatched, empty pieces are skipped |
| `SerialFramer.LeftOverIsRemainder` | firmware/vanilla/SerialCommandFramer.cpp:31-37 | An over-long line is not discarded in full: its last (length mod (maxLen+1)) bytes survive |
| `SerialFramer.DispatchedLinesAreShort` | firmware/vanilla/SerialCommandFramer.cpp:20-38 | Dispatched lines are non-empty, terminator-free and within the budget |
| `SerialFramer.ShortLineVerbatim` | firmware/vanilla/SerialCommandFramer.cpp:20-38 | A terminated line within the budget is dispatched verbatim |
| `Provisioning.NvsStore.StoreWifiCredentials` | firmware/vanilla/NvsWifiCredentialStore.cpp:18-29 | Three ordered writes, stopped by the first failure |
| `Provisioning.StoreSuccessIsReadBack` | firmware/vanilla/NvsWifiCredentialStore.cpp:18-29 | Success is reported exactly for a complete write of a non-empty pair, and the boot reader then returns that pair from NVS whatever was stored before |
| `Provisioning.RefusedPasswordTearsThePair` | firmware/vanilla/NvsWifiCredentialStore.cpp:24-28 | A refused password write over an existing entry makes the boot reader pair the new SSID with the old password |
| `Provisioning.TornExactly` | firmware/vanilla/NvsWifiCredentialStore.cpp:18-29 | For every old content, pair and pattern of refused writes: exactly when the next boot connects with a pair that is neither the old credentials nor the new, including an old pair revived by writing the count |
| `Provisioning.OldOrNewUnlessTorn` | firmware/vanilla/NvsWifiCredentialStore.cpp:18-29 | For an accepted pair over stored credentials the boot reader gets the old or the new credentials unless only the password write is refused, over a different kept password and a different SSID |
| `Provisioning.SetWifiWins` | firmware/vanilla/AtCommandDispatcher.cpp:226-285 | First-match dispatch gives every line starting with ATSETWIFI to its own handler, not to the ATS* prefix handlers before it |
| `Provisioning.DispatchExactly` | firmware/vanilla/AtCommandDispatcher.cpp:95-212 | What a command line does, by its text: ATSETWIFI writes all three entries and reboots, or does nothing; ATCLEARWIFI empties the store and reboots; ATREBOOT and a token of good length only reboot; nothing else changes the store or reboots |
| `Provisioning.ParamsParseBack` | firmware/vanilla/AtCommandDispatcher.cpp:341-354 | Trimming and splitting at the first comma recovers the pair from the command |
| `Provisioning.AcceptedIsSendable` | firmware/vanilla/AtCommandDispatcher.cpp:100-121 | Whatever ATSETWIFI accepts from a line is a pair the protocol can carry |
| `Provisioning.ProvisioningRoundTrip` | src/cli/ProvisioningRunner.cpp:836-839 | End to end, for every old store, all strings and every line budget: a sendable pair is what the next boot reads back, and a pair read back is sendable or was stored before; so a new pair is delivered if and only if lengths, comma, terminators, outer whitespace and the budget permit it |
| `Provisioning.DeployedBudgetLosesLongPairs` | firmware/can-bridge/can-bridge.ino:133-133 | With the deployed budget of 64, over any old store, a new pair of accepted lengths is delivered exactly up to 54 characters together |
| `CanText.Snprintf` | firmware/vanilla/CanBridge.cpp:59-68 | What a bounded print at an offset writes: the text clipped to the room left, always terminated when there is room |
| `CanText.BuildFrameString` | firmware/vanilla/CanBridge.cpp:59-68 | For every 32-bit id and every DLC the write offset, returned, is the line's length and at most 32, and the buffer holds the intended line cut to 31 characters |
| `CanText.LineCompleteExactly` | firmware/vanilla/CanBridge.cpp:59-68 | The line is complete and CR-terminated exactly when digits(id)+3*min(dlc,8)+2 <= 32; for eight bytes, exactly when the id has at most six digits |
| `CanText.Hex3Exactly` | firmware/vanilla/CanBridge.cpp:59-60 | An id is written with at least three digits and no more than it needs |
| `CanText.DataTextExactly` | firmware/vanilla/CanBridge.cpp:61-64 | Each data byte is written as a space and two digits |
| `CanText.TokenizeHex` | src/boundary/ELM327Transport.cpp:101-116 | The accumulator loop computes the tokens of the line |
| `CanText.TokensAreMaximalRuns` | src/boundary/ELM327Transport.cpp:101-116 | The tokens are the maximal runs of hex digits in upper case: non-empty, kept apart by non-empty text without hex digits, and together with that text they spell the upper-cased line |
| `CanText.DecodeBytes` | src/boundary/ELM327Transport.cpp:314-321 | Either every token is a two-digit byte and all are decoded in order, or nothing is |
| `CanText.ParseCanFrameLine` | src/boundary/ELM327Transport.cpp:278-329 | The parser with its loops and early exits equals the specification |
| `CanText.ParsedExactly` | src/boundary/ELM327Transport.cpp:278-329 | On every line the parser yields a frame if and only if there is no ':' and the tokens are an id and eight two-digit bytes, behind a type from 600 to 6FF if there are ten; the id is cut to 16 bits |
| `CanText.IdIsLittleEndian` | src/domain/BLESignalSource.cpp:40-57 | An id travels to the signal source least significant byte first |
| `CanText.BleSignalSource.OnDataReceived` | src/domain/BLESignalSource.cpp:40-57 | The low-endian id indexes the remaining bytes; shorter input changes nothing |
| `CanText.EncodedFrameParses` | src/boundary/ELM327Transport.cpp:278-329 | For every id, DLC and payload the host decodes the device's buffer exactly when eight bytes were sent and the id has at most seven digits, and then gets the payload and the id's low half |
| `CanText.CanRoundTrip` | src/ble/Elm327Session.cpp:294-302 | From one buffer: encoding, parsing, 10-byte packing and unpacking put exactly the payload under the id's low half, so under the id itself up to 0xFFFF; any other frame changes nothing |
| `CanText.StreamRoundTrip` | firmware/vanilla/CanBridge.cpp:44-68 | For any frames at all, splitting the wire at CR and delivering the pieces accumulates, in order, exactly the frames that fit the buffer and do not follow one that does not; the wire ends with a whole line exactly when the last frame fits |
| `CanText.AllSurvive` | firmware/vanilla/CanBridge.cpp:59-68 | Every frame survives exactly when every frame fits, and then all of them are accumulated |
| `CanText.SmallIdsFit` | firmware/vanilla/CanBridge.cpp:59-68 | Every frame with an id below 2^24 fits |
| `CanText.LinesOnTheWire` | firmware/vanilla/CanBridge.cpp:59-68 | The wire holds as many CR-terminated lines as there are fitting frames |
| `CanText.AllFit` | firmware/vanilla/CanBridge.cpp:59-68 | So every frame has a line of its own exactly when every line fits |
| `Obd2Response.StripInfoPrefixes` | src/boundary/ELM327Transport.cpp:58-74 | The stripping loop, in any iteration order of the banner set, leaves what follows the earliest banner and its separators |
| `Obd2Response.StrippingIsDetermined` | src/boundary/ELM327Transport.cpp:58-74 | That result is unique, so the iteration order never shows |
| `Obd2Response.BannersApart` | src/boundary/ELM327Transport.cpp:22-25 | Two banners never overlap, and two at one place are the same |
| `Obd2Response.FlushHexAccumulator` | src/boundary/ELM327Transport.cpp:78-85 | The flush loop decodes all complete pairs and leaves the odd digit |
| `Obd2Response.Accumulate` | src/boundary/ELM327Transport.cpp:159-184 | The streaming loop with its three branches equals the fold it is specified by |
| `Obd2Response.AccumulatorPairsDigits` | src/boundary/ELM327Transport.cpp:159-184 | On text without ':' the accumulator keeps the hex digits and pairs them, failing exactly on an odd or zero count, wherever separators stand |
| `Obd2Response.LabelsAreDropped` | src/boundary/ELM327Transport.cpp:168-173 | Line labels before ':' are never taken for data: labelled lines decode to their bodies' bytes in order |
| `Obd2Response.ErrorTextIsRefused` | src/boundary/ELM327Transport.cpp:146-158 | A text that names an adapter error, in any case and anywhere in it, is never decoded |
| `Obd2Response.DecodeExactly` | src/boundary/ELM327Transport.cpp:146-192 | Without ':' a text decodes if and only if it names no error and holds an even, non-zero number of hex digits |
| `Obd2Response.ParseObd2Response` | src/boundary/ELM327Transport.cpp:146-192 | The whole parser: the prompt is cut off, the one possible banner stripping exists and is decoded, errors and empty texts give nothing |
| `Obd2Response.RenderingRoundTrip` | src/boundary/ELM327Transport.cpp:146-192 | Any hex rendering of a non-empty byte string, behind any banner and before any prompt, decodes to exactly those bytes |
| `Pacer.CsvReplayPacer.PaceRow` | src/cli/CsvReplayPacer.cpp:10-31 | The first row anchors the schedule without waiting; a later row leaves at once or after the remaining wait against the one origin |
| `Pacer.Run` | src/cli/CsvReplayPacer.cpp:10-31 | Over a whole file the stateful pacer and clock emit row k at the specification's time |
| `Pacer.OffsetExactly` | src/cli/CsvReplayPacer.cpp:33-51 | The schedule is a fixed step per row or the difference of the stamps |
| `Pacer.SleepExactly` | src/cli/CsvReplayPacer.cpp:10-31 | A row that has to wait sleeps once, for the least whole number of milliseconds that reaches its due time; one already due leaves at once |
| `Pacer.EmissionWindow` | src/cli/CsvReplayPacer.cpp:21-29 | Every row leaves in [max(arrival, due), that + 1 ms) plus its own sleep's overshoot, for any clock resolution |
| `Pacer.NotBefore` | src/cli/CsvReplayPacer.cpp:21-29 | No row leaves before any earlier row's due time plus the overheads since |
| `Pacer.NoDrift` | src/cli/CsvReplayPacer.cpp:21-29 | Some row up to k accounts for the whole delay to within 1 ms and one overshoot: overshoots never add up |
| `Pacer.ExactOnMillisecondClock` | src/cli/CsvReplayPacer.cpp:33-51 | On a millisecond clock with exact sleeps the emission time is the max over j<=k of start+offset_j plus the overheads after j |
| `Pacer.OnTimeForever` | src/cli/CsvReplayPacer.cpp:33-51 | If each row's overhead fits its gap, every row of a file of any length is late by less than 1 ms and one overshoot |
| `Pacer.OutOfOrderNeverWaits` | src/cli/CsvReplayPacer.cpp:39-45 | A row due no later than its predecessor leaves on arrival |
| `StatusReader.RunStatus` | src/cli/ProvisioningRunner.cpp:742-784 | The printed line is the first complete heartbeat of the concatenated stream, whatever the reads were; otherwise every received byte is kept for the diagnostic |
| `StatusReader.SnapshotStable` | src/cli/ProvisioningRunner.cpp:354-364 | A complete heartbeat is never changed by later bytes |
| `StatusReader.SnapshotMeaning` | src/cli/ProvisioningRunner.cpp:774-784 | The line printed is the marker and what follows it up to the terminator |
| `StatusReader.SnapshotExactly` | src/cli/ProvisioningRunner.cpp:774-784 | Something is printed if and only if the stream holds a heartbeat closed by a terminator, and then it is the first one up to that terminator |
| `StatusReader.StripByPosition` | src/cli/ProvisioningRunner.cpp:445-471 | The position loop equals the line-by-line specification |
| `StatusReader.NoStateLineLeft` | src/cli/ProvisioningRunner.cpp:445-471 | No complete heartbeat line is left at any line start |
| `StatusReader.OtherTextIsKept` | src/cli/ProvisioningRunner.cpp:445-471 | Text without a complete heartbeat line passes unchanged |
| `StatusReader.StrippingIsIdempotent` | src/cli/ProvisioningRunner.cpp:445-471 | Filtering twice is filtering once, although dropping a line can join a lone CR with a lone LF |
| `StatusReader.OnlyHeartbeatsAreDropped` | src/cli/ProvisioningRunner.cpp:445-471 | The input is the output with whole heartbeat lines put back |
| `StatusReader.AckIsFound` | src/cli/ProvisioningRunner.cpp:338-348 | A complete acknowledgement line, closed by CR, LF or CR LF, is found whatever complete lines stand before it and whatever follows |
| `StatusReader.PrintedAckIsFound` | firmware/can-bridge/ArduinoAtAdapters.h:36 | In particular a line as the device's console prints it, closed by CR LF |
| `StatusReader.AwaitAck` | src/cli/ProvisioningRunner.cpp:691-740 | The command's wait succeeds exactly when after some poll, before any failure of the port, the filtered bytes received so far contain the awaited word |
| `StatusReader.AckSeenExactly` | src/cli/ProvisioningRunner.cpp:338-348 | Some cut of a stream shows the acknowledgement if and only if the filtered stream or a heartbeat line contains the awaited word, that is, if the stream contains it at all |
| `StatusReader.AckDependsOnChunking` | src/cli/ProvisioningRunner.cpp:338-348 | Every way of reading a stream gives the verdict of the whole stream if and only if no heartbeat line contains the awaited word while the filtered stream does not |
| `Discovery.Serialize` | src/discovery/DiscoveryPacket.cpp:31-54 | The offset writes fill the first 106 bytes with the wire form and leave the rest |
| `Discovery.WireExactly` | src/discovery/DiscoveryPacket.cpp:31-54 | The packet byte by byte: VSIM, version 1, type 1, id, nonce, and the numbers with their most significant byte first |
| `Discovery.WriteBigEndian` | src/discovery/DiscoveryPacket.cpp:7-17 | The shifting loops write the low bytes, most significant first |
| `Discovery.ReadBigEndian` | src/discovery/DiscoveryPacket.cpp:19-29 | The reading loop recovers the number |
| `Discovery.ParsePacket` | src/discovery/DiscoveryPacket.cpp:68-115 | The reader's checks and copies equal the specification |
| `Discovery.SerializeThenParse` | src/discovery/DiscoveryPacket.cpp:31-115 | Reading what was written, with anything behind it, gives the packet back exactly when its CAN port is not zero |
| `Discovery.ParseThenSerialize` | src/discovery/DiscoveryPacket.cpp:68-115 | Writing what was accepted gives the first 106 bytes back |
| `Discovery.BuildDiscoveryPacket` | firmware/vanilla/DiscoveryManager.cpp:119-148 | The device's writer fills the packet with the wire form of what it announces |
| `Discovery.DevicePacketParses` | firmware/vanilla/DiscoveryManager.cpp:119-148 | The host accepts a device packet exactly when the TCP port's low 16 bits are not zero, and then has the device's id, OTA port, time and those 16 bits, the nonce least significant byte first, and a zero signature |
| `SonarConfig.RegenerateText` | scripts/gen_coverage_config.py:131-198 | The index-driven loop, with its inner block scan and its append loop, equals the specification |
| `SonarPlacement.RegeneratedExactly` | scripts/gen_coverage_config.py:131-198 | The new file in closed form, for every cut of the old one into blocks and lines outside: a fresh block stands in place of each block whose key is wanted and of each line that assigns a wanted key nothing before it holds; other blocks are gone, other lines stand as they were, and blocks of wanted keys held nowhere follow |
| `SonarPlacement.LineStaysExactly` | scripts/gen_coverage_config.py:159-187 | A hand-written line stays in its place if and only if each wanted key it assigns is held by an earlier block or line; otherwise the key's block stands in that place |
| `SonarPlacement.EveryFileIsCut` | scripts/gen_coverage_config.py:118-150 | Every file has such a cut |
| `SonarPlacement.AssignsExactly` | scripts/gen_coverage_config.py:172-176 | A line assigns the owned key that follows its leading blanks, up to an equals sign |
| `SonarConfig.RegenerationIsIdempotent` | scripts/gen_coverage_config.py:97-198 | For every file and manifest a second run changes nothing if and only if every manifest value is stable: no line of it after the first closes the block, or all that spills out are unwanted blocks |
| `SonarConfig.OneLineValueIsStable` | scripts/gen_coverage_config.py:127-128 | A value without a newline is stable |
| `SonarConfig.EndMarkerInValue` | scripts/gen_coverage_config.py:127-128 | A value whose second line is an END marker is not, so the documented idempotence fails for it |
| `SonarConfig.HandWrittenTextSurvives` | scripts/gen_coverage_config.py:131-198 | For every file and manifest the new file is pieces of text and blocks holding manifest values; its text is, in order, what stood outside the old blocks except adopted assignments, then one newline per appended block |
| `SonarConfig.OutsideTextSurvives` | scripts/gen_coverage_config.py:131-198 | For stable values a reader of the new file also finds exactly that text outside its blocks |
| `SonarConfig.EveryWantedKeyHasItsBlock` | scripts/gen_coverage_config.py:127-198 | Every wanted key ends with a block, at a line boundary, holding its manifest value |
| `DbcAggregate.SignalLookup` | scripts/gen_aggregate_dbc.py:174-179 | The index maps each id and name to the last upstream signal of that name |
| `DbcAggregate.BuildMessage` | scripts/gen_aggregate_dbc.py:288-345 | One message's loop succeeds exactly without layout drift and without duplicate names, and returns the curated signals in order |
| `DbcAggregate.BuildAggregate` | scripts/gen_aggregate_dbc.py:249-367 | The builder, in any iteration order of the id set, rejects exactly the contract violations and otherwise returns the curated messages and tables |
| `DbcAggregate.EmittedIsUpstream` | scripts/gen_aggregate_dbc.py:304-333 | Every emitted signal has the bits, scale and offset of one upstream signal on the same id, and is there because it is required, optional or an alias target |
| `DbcAggregate.EmittedNamesUnique` | scripts/gen_aggregate_dbc.py:335-345 | Names are unique on every id |
| `DbcAggregate.RequiredIsEmitted` | scripts/gen_aggregate_dbc.py:232-246 | Every required signal that is not an alias source is emitted, with its own upstream meaning or its alias source's |
| `DbcAggregate.NoIdIsAbsent` | scripts/gen_aggregate_dbc.py:268-287 | With an index of the same messages, validation already rules out a missing message |
| `DbcAggregate.TablesKeepTheirMeaning` | scripts/gen_aggregate_dbc.py:347-367 | Every emitted value table keeps its entries and names a live signal laid out exactly as the upstream signal the table was written for, renamed or not |
| `DbcAggregate.TablesExactly` | scripts/gen_aggregate_dbc.py:347-367 | The carried value tables, exactly: in upstream order, with their entries, under the alias target or their own name, and an upstream table is among them if and only if a signal of that name is emitted on its id |
| `DbcAggregate.SignalsExactly` | scripts/gen_aggregate_dbc.py:268-333 | The emitted messages, exactly: the ids of required, aliased and present optional signals, with their headers, and in upstream order exactly the required, optional and aliased signals |
| `DbcAggregate.BuiltExactly` | scripts/gen_aggregate_dbc.py:210-345 | The builder succeeds if and only if every alias source exists, no two aliases share a target, every required signal exists or is a target, no target exists natively with another layout, and no message emits a name twice |

## Left out

- Ed25519ph arithmetic (section 5.1 of RFC 8032) is an arbitrary function of the bytes fed and the signature; the clipping of memory by real flash drivers is not modelled.
- The OTA server keeps its error as a code instead of the message string; the reply still searches the message text.
- Mutexes, condition variables and threads of the transports and of the ELM327 session: only the sequential data path is modelled, and the `readData` and prompt-waiting paths are not.
- Overflow inside `sscanf("%X")`: a token of more than eight hex digits is read as a mathematical number before the id is cut to 16 bits. In device lines only the type and id tokens are read that way, and those have at most eight digits; a data byte and an id run together can have ten, but never stand there.
- `CanText.StreamRoundTrip`: the wire is split at CR by specification, not by a host class.
- Signed 64-bit overflow of a timestamp difference in the replay pacer (stamps more than 2^63 ms apart).
- `SonarConfig.RegenerateText`: keys are positions in the owned-key list; Python's universal-newline translation and non-ASCII whitespace in `lstrip` are not modelled, nor is the reading of the manifest itself.
- `DbcAggregate.BuildAggregate`: all contract violations are one rejection; the raw `SG_` line, its textual rename and the serialiser are not modelled.
- `Pacer.CsvReplayPacer.PaceRow`: counters are unbounded integers.
- The reconnect-attempt counter of the WiFi manager is unbounded; it would take centuries to overflow.
- Trimming in the TCP manager is modelled by its result, not by its `find_first_not_of` calls; strings are sequences of characters without an encoding.
- Of the AT handlers only matching, WiFi storage, clearing and reboot change the modelled state; reply texts, token storage and monitor flags are left out.
- `printf` traces, LED patterns, heartbeat text, NTP, factory reset, discovery policy and intervals, HTTP form pages, host argument parsing, display scripts and the simulator: they would add only easy members.
- BLE, serial, socket and HTTP adapters are foreign calls and appear as inputs or logged effects.
