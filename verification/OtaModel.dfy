/** The OTA upload handler as a step function: START / WRITE / END / ABORTED multipart events and the
    closing POST, against an adversarial updater, flash and signature checker. */
module OtaModel {
  import opened Machine
  import opened Text
  import opened Wrappers

  datatype OtaError =
    | SodiumNotReady | BadSignatureHeader | NoSignature | UpdateBeginFailed | UpdateWriteFailed
    | UpdateEndFailed | UpdateError | NoOtaPartition | SignatureVerifyFailed | SetBootPartitionFailed
    | UploadAborted | UploadTimeout

  function ErrorMessage(err: OtaError): string {
    match err
    case SodiumNotReady => "sodium library not ready"
    case BadSignatureHeader => "invalid signature header format"
    case NoSignature => "missing signature header"
    case UpdateBeginFailed => "failed to begin update"
    case UpdateWriteFailed => "firmware write failed"
    case UpdateEndFailed => "failed to end update"
    case UpdateError => "update error"
    case NoOtaPartition => "no OTA partition available"
    case SignatureVerifyFailed => "signature verification failed"
    case SetBootPartitionFailed => "failed to set boot partition"
    case UploadAborted => "upload aborted"
    case UploadTimeout => "upload timeout"
  }

  const UPLOAD_TIMEOUT_MS := 300000
  const VERIFY_CHUNK_SIZE: nat := 512
  const SIG_HEX_LEN := 128

  // A flash partition: its content spans its whole capacity.
  datatype Partition = Partition(id: int, content: seq<byte>)

  // The signature checker and the flash driver at one END. A nonzero code is a failure; the final check
  // is an arbitrary function of the bytes fed since the init and of the signature.
  datatype Verifier = Verifier(
    initCode: int,
    readCode: nat -> int,
    updateCode: nat -> int,
    finalCode: (seq<byte>, seq<byte>) -> int)

  datatype Event =
    | Start(now: uint32, header: string, beginOk: bool)
    | Write(now: uint32, buf: seq<byte>, written: nat)
    | End(totalSize: uint32, endOk: bool, hasError: bool, target: Option<Partition>, verifier: Verifier,
          setBootCode: int)
    | Aborted
    | Post(hasError: bool)

  // Calls on the updater, the flash, the checker and the HTTP peer.
  datatype Effect =
    | UpdateBegin
    | UpdateWrite(data: seq<byte>)
    | UpdateEnd
    | UpdateAbort
    | HashInit
    | FlashRead(id: int, off: nat, n: nat)
    | HashUpdate(data: seq<byte>)
    | FinalVerify(sig: seq<byte>)
    | SetBoot(part: Partition)
    | Reply(code: int)
    | SetNoDelay
    | FlushClient
    | StopClient
    | NotifyError(err: OtaError)
    | NotifySuccess

  // err is the pending error, whose message the server keeps; none while the upload is healthy.
  datatype Server = Server(sodiumReady: bool, uploadStart: uint32, sig: seq<byte>, hasSig: bool,
                           err: Option<OtaError>)

  datatype Outcome = Outcome(server: Server, fx: seq<Effect>)

  predicate ValidSigHeader(hex: string) {
    |hex| == SIG_HEX_LEN && AllHex(hex)
  }

  // How many leading bytes of the signature buffer a header overwrites before it is accepted or refused.
  function OverwrittenBytes(hex: string): (n: nat)
    ensures n <= 64
    ensures 2 * n <= |hex| && AllHex(hex[..2 * n])
    ensures ValidSigHeader(hex) <==> |hex| == SIG_HEX_LEN && n == 64
  {
    if |hex| != SIG_HEX_LEN then 0 else LeadingPairs(hex) / 2
  }

  // The length of the longest even-length prefix made of hex digits.
  function LeadingPairs(hex: string): (n: nat)
    ensures n <= |hex| && n % 2 == 0 && AllHex(hex[..n])
    ensures |hex| % 2 == 0 && AllHex(hex) ==> n == |hex|
  {
    if |hex| < 2 || !IsHex(hex[0]) || !IsHex(hex[1]) then 0
    else
      var n := 2 + LeadingPairs(hex[2..]);
      assert forall i :: 2 <= i < n ==> hex[..n][i] == hex[2..][..n - 2][i - 2];
      assert |hex| % 2 == 0 && AllHex(hex) ==> AllHex(hex[2..]);
      n
  }

  // The signature buffer after parsing a header into it: refused headers still leave their valid prefix.
  function SigAfter(sig: seq<byte>, hex: string): (r: seq<byte>)
    requires |sig| == 64
    ensures |r| == 64
  {
    var n := OverwrittenBytes(hex);
    PairBytes(hex[..2 * n]) + sig[n..]
  }

  // ---- verification of the flashed image ----

  function ChunkLen(size: nat, off: nat): (n: nat)
    requires off < size
    ensures 0 < n <= size - off
  {
    if size - off < VERIFY_CHUNK_SIZE then size - off else VERIFY_CHUNK_SIZE
  }

  // One chunk read from flash and fed to the checker, and whether both went well.
  function FeedChunk(p: Partition, off: nat, n: nat, v: Verifier): (bool, seq<Effect>)
    requires off + n <= |p.content|
  {
    if v.readCode(off) != 0 then (false, [FlashRead(p.id, off, n)])
    else (v.updateCode(off) == 0, [FlashRead(p.id, off, n), HashUpdate(p.content[off..off + n])])
  }

  // The chunked pass from offset off on; fed is what the checker has been fed so far.
  function VerifyFrom(p: Partition, size: nat, sig: seq<byte>, v: Verifier, off: nat, fed: seq<byte>)
    : (bool, seq<Effect>)
    requires size <= |p.content| && off <= size
    decreases size - off
  {
    if off == size then (v.finalCode(fed, sig) == 0, [FinalVerify(sig)])
    else
      var n := ChunkLen(size, off);
      var (clear, calls) := FeedChunk(p, off, n, v);
      if !clear then (false, calls)
      else
        var (ok, fx) := VerifyFrom(p, size, sig, v, off + n, fed + p.content[off..off + n]);
        (ok, calls + fx)
  }

  function Verify(p: Partition, size: nat, sig: seq<byte>, v: Verifier): (bool, seq<Effect>) {
    if size > |p.content| then (false, [])
    else if v.initCode != 0 then (false, [HashInit])
    else
      var (ok, fx) := VerifyFrom(p, size, sig, v, 0, []);
      (ok, [HashInit] + fx)
  }

  // ---- one event ----

  function Fail(s: Server, err: OtaError, fx: seq<Effect>): Outcome {
    Outcome(s.(err := Some(err)), fx + [NotifyError(err)])
  }

  function OnStart(s0: Server, e: Event): Outcome
    requires e.Start? && |s0.sig| == 64
  {
    var s := s0.(err := None, hasSig := false, uploadStart := e.now);
    if !s.sodiumReady then Fail(s, SodiumNotReady, [])
    else if !ValidSigHeader(e.header) then Fail(s.(sig := SigAfter(s.sig, e.header)), BadSignatureHeader, [])
    else
      var parsed := s.(sig := PairBytes(e.header), hasSig := true);
      if !e.beginOk then Fail(parsed, UpdateBeginFailed, [UpdateBegin]) else Outcome(parsed, [UpdateBegin])
  }

  predicate TimedOut(now: uint32, started: uint32) {
    Sub32(now, started) > UPLOAD_TIMEOUT_MS
  }

  function OnWrite(s: Server, e: Event): Outcome
    requires e.Write?
  {
    if s.err.Some? then Outcome(s, [])
    else if TimedOut(e.now, s.uploadStart) then Fail(s, UploadTimeout, [UpdateAbort])
    else if e.written != |e.buf| then Fail(s, UpdateWriteFailed, [UpdateWrite(e.buf)])
    else Outcome(s, [UpdateWrite(e.buf)])
  }

  function OnEnd(s: Server, e: Event): Outcome
    requires e.End?
  {
    if s.err.Some? then Outcome(s, [])
    else if !e.endOk then Fail(s, UpdateEndFailed, [UpdateEnd])
    else if e.hasError then Fail(s, UpdateError, [UpdateEnd])
    else if e.target.None? then Fail(s, NoOtaPartition, [UpdateEnd])
    else
      var (ok, fx) := Verify(e.target.value, e.totalSize, s.sig, e.verifier);
      if !ok then Fail(s, SignatureVerifyFailed, [UpdateEnd] + fx + [UpdateAbort])
      else
        var calls := [UpdateEnd] + fx + [SetBoot(e.target.value)];
        if e.setBootCode != 0 then Fail(s, SetBootPartitionFailed, calls) else Outcome(s, calls)
  }

  // The POST handler classifies the pending error by searching its message.
  function PostClass(err: OtaError): OtaError {
    var message := LowerAll(ErrorMessage(err));
    if Contains(message, "signature") then SignatureVerifyFailed
    else if Contains(message, "sodium") then SodiumNotReady
    else UpdateError
  }

  function HttpCode(err: OtaError): int {
    match err
    case SignatureVerifyFailed => 403
    case BadSignatureHeader => 403
    case SodiumNotReady => 403
    case NoSignature => 401
    case _ => 400
  }

  function PostCode(s: Server, hasError: bool): int {
    if s.err.Some? then HttpCode(PostClass(s.err.value)) else if hasError then 400 else 200
  }

  const REBOOT_FLUSH_COUNT: nat := 10

  function Flushes(n: nat): seq<Effect> {
    if n == 0 then [] else Flushes(n - 1) + [FlushClient]
  }

  // The reply and what surrounds it: success is flushed out before the client is stopped.
  function OnPost(s: Server, hasError: bool): Outcome {
    if s.err.Some? then Outcome(s, [Reply(PostCode(s, hasError)), NotifyError(PostClass(s.err.value))])
    else if hasError then Outcome(s, [Reply(400), NotifyError(UpdateError)])
    else Outcome(s, [SetNoDelay, Reply(200)] + Flushes(REBOOT_FLUSH_COUNT) + [StopClient, NotifySuccess])
  }

  function Lower(c: char): char {
    if 'A' <= c <= 'Z' then c - 'A' + 'a' else c
  }

  function LowerAll(s: string): string {
    seq(|s|, i requires 0 <= i < |s| => Lower(s[i]))
  }

  function Step(s: Server, e: Event): (o: Outcome)
    requires |s.sig| == 64
    ensures |o.server.sig| == 64
  {
    match e
    case Start(_, _, _) => OnStart(s, e)
    case Write(_, _, _) => OnWrite(s, e)
    case End(_, _, _, _, _, _) => OnEnd(s, e)
    case Aborted => Fail(s, UploadAborted, [UpdateAbort])
    case Post(hasError) => OnPost(s, hasError)
  }
}
