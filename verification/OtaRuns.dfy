/** Safety of whole OTA event sequences: the boot switch is dominated by verification of exactly the
    flashed image, errors are sticky, and the success reply means what it says. */
module OtaRuns {
  import opened Machine
  import opened Text
  import opened OtaModel
  import opened Wrappers

  // ---- the chunked pass ----

  // Everything fed to the signature checker by a list of calls.
  ghost function Fed(fx: seq<Effect>): seq<byte> {
    if fx == [] then [] else (if fx[0].HashUpdate? then fx[0].data else []) + Fed(fx[1..])
  }

  // The flash reads among the calls are all of partition id and tile [off, to) from left to right.
  ghost predicate ReadsTile(fx: seq<Effect>, id: int, off: nat, to: nat) {
    if fx == [] then off == to
    else if fx[0].FlashRead? then fx[0].id == id && fx[0].off == off && ReadsTile(fx[1..], id, off + fx[0].n, to)
    else ReadsTile(fx[1..], id, off, to)
  }

  predicate ChunkClear(v: Verifier, off: nat) {
    v.readCode(off) == 0 && v.updateCode(off) == 0
  }

  // Every chunk from offset off on could be read and fed.
  ghost predicate AllClear(v: Verifier, off: nat, size: nat) {
    forall o: nat :: off <= o < size && o % 512 == 0 ==> ChunkClear(v, o)
  }

  lemma AllClearStep(v: Verifier, off: nat, size: nat)
    requires off < size && off % VERIFY_CHUNK_SIZE == 0
    ensures AllClear(v, off, size) <==> ChunkClear(v, off) && AllClear(v, off + ChunkLen(size, off), size)
  {
    assert forall o: nat :: off < o < size && o % VERIFY_CHUNK_SIZE == 0 ==> off + ChunkLen(size, off) <= o;
  }

  // The image is accepted: it fits, every chunk could be read and fed, and the checker accepts exactly
  // the first `size` bytes of the partition under `sig`.
  ghost predicate ImageVerified(p: Partition, size: nat, sig: seq<byte>, v: Verifier) {
    && size <= |p.content|
    && v.initCode == 0
    && AllClear(v, 0, size)
    && v.finalCode(p.content[..size], sig) == 0
  }

  lemma FinalFeedsNothing(sig: seq<byte>, id: int, size: nat)
    ensures Fed([FinalVerify(sig)]) == [] && ReadsTile([FinalVerify(sig)], id, size, size)
  {
    var fx := [FinalVerify(sig)];
    assert fx[1..] == [];
  }

  // One chunk of the pass.
  lemma VerifyStep(p: Partition, size: nat, sig: seq<byte>, v: Verifier, off: nat)
    requires off < size <= |p.content|
    ensures var n := ChunkLen(size, off);
      var (ok, fx) := VerifyFrom(p, size, sig, v, off, p.content[..off]);
      var (ok', fx') := VerifyFrom(p, size, sig, v, off + n, p.content[..off + n]);
      if ChunkClear(v, off)
      then ok == ok' && fx == [FlashRead(p.id, off, n), HashUpdate(p.content[off..off + n])] + fx'
      else !ok && forall e :: e in fx ==> e.FlashRead? || e.HashUpdate?
  {
    var n := ChunkLen(size, off);
    assert p.content[..off] + p.content[off..off + n] == p.content[..off + n];
  }

  // What a pass from offset off on answers and calls.
  ghost predicate PassIs(p: Partition, size: nat, sig: seq<byte>, v: Verifier, off: nat, r: (bool, seq<Effect>))
    requires off <= size <= |p.content|
  {
    && (r.0 <==> AllClear(v, off, size) && v.finalCode(p.content[..size], sig) == 0)
    && (r.0 ==> Fed(r.1) == p.content[off..size] && ReadsTile(r.1, p.id, off, size))
    && (forall e :: e in r.1 ==> e.FlashRead? || e.HashUpdate? || e.FinalVerify?)
  }

  lemma PassGoesOn(p: Partition, size: nat, sig: seq<byte>, v: Verifier, off: nat, n: nat, rest: (bool, seq<Effect>))
    requires off < size <= |p.content| && off % VERIFY_CHUNK_SIZE == 0 && n == ChunkLen(size, off)
    requires ChunkClear(v, off) && PassIs(p, size, sig, v, off + n, rest)
    ensures PassIs(p, size, sig, v, off,
                   (rest.0, [FlashRead(p.id, off, n), HashUpdate(p.content[off..off + n])] + rest.1))
  {
    AllClearStep(v, off, size);
    TwoCalls(FlashRead(p.id, off, n), HashUpdate(p.content[off..off + n]), rest.1, p.id, off, size);
    ContentSplit(p.content, off, n, size);
  }

  lemma {:induction false} VerifyFromExact(p: Partition, size: nat, sig: seq<byte>, v: Verifier, off: nat)
    requires off <= size <= |p.content| && (off % VERIFY_CHUNK_SIZE == 0 || off == size)
    ensures PassIs(p, size, sig, v, off, VerifyFrom(p, size, sig, v, off, p.content[..off]))
    decreases size - off
  {
    if off == size {
      FinalFeedsNothing(sig, p.id, size);
      assert p.content[off..size] == [];
    } else {
      var n := ChunkLen(size, off);
      VerifyStep(p, size, sig, v, off);
      if ChunkClear(v, off) {
        VerifyFromExact(p, size, sig, v, off + n);
        PassGoesOn(p, size, sig, v, off, n, VerifyFrom(p, size, sig, v, off + n, p.content[..off + n]));
      } else {
        AllClearStep(v, off, size);
      }
    }
  }

  lemma ContentSplit(s: seq<byte>, off: nat, n: nat, size: nat)
    requires off + n <= size <= |s|
    ensures s[off..off + n] + s[off + n..size] == s[off..size]
  {
  }

  lemma TwoCalls(read: Effect, update: Effect, rest: seq<Effect>, id: int, off: nat, to: nat)
    requires read.FlashRead? && update.HashUpdate? && read.id == id && read.off == off
    ensures Fed([read, update] + rest) == update.data + Fed(rest)
    ensures ReadsTile([read, update] + rest, id, off, to) == ReadsTile(rest, id, off + read.n, to)
  {
    var fx := [read, update] + rest;
    assert fx[1..] == [update] + rest;
    assert fx[1..][1..] == rest;
  }

  lemma FedAround(pre: Effect, fx: seq<Effect>, post: Effect)
    requires !pre.HashUpdate? && !pre.FlashRead? && !post.HashUpdate? && !post.FlashRead?
    ensures Fed([pre] + fx) == Fed(fx) == Fed(fx + [post])
    ensures forall id, off, to :: ReadsTile([pre] + fx, id, off, to) == ReadsTile(fx, id, off, to)
    ensures forall id, off, to :: ReadsTile(fx + [post], id, off, to) == ReadsTile(fx, id, off, to)
  {
    assert ([pre] + fx)[1..] == fx;
    if fx != [] {
      assert (fx + [post])[1..] == fx[1..] + [post];
      FedAround(pre, fx[1..], post);
    } else {
      assert Fed([post]) == [] + Fed([]);
    }
  }

  /** The verification pass accepts exactly the verified images, and then it has read and fed exactly the
      bytes [0, size) of the partition, each once and in order. */
  lemma VerifyExact(p: Partition, size: nat, sig: seq<byte>, v: Verifier)
    ensures Verify(p, size, sig, v).0 <==> ImageVerified(p, size, sig, v)
    ensures Verify(p, size, sig, v).0 ==>
      Fed(Verify(p, size, sig, v).1) == p.content[..size] && ReadsTile(Verify(p, size, sig, v).1, p.id, 0, size)
    ensures forall e :: e in Verify(p, size, sig, v).1 ==>
      e.HashInit? || e.FlashRead? || e.HashUpdate? || e.FinalVerify?
  {
    if size <= |p.content| {
      VerifyFromExact(p, size, sig, v, 0);
      FedAround(HashInit, VerifyFrom(p, size, sig, v, 0, []).1, UpdateEnd);
    }
  }

  // ---- traces ----

  // ss[k] is the server before event k.
  ghost predicate IsTrace(ss: seq<Server>, es: seq<Event>) {
    && |ss| == |es| + 1
    && (forall k :: 0 <= k < |ss| ==> |ss[k].sig| == 64)
    && (forall k :: 0 <= k < |es| ==> ss[k + 1] == Step(ss[k], es[k]).server)
  }

  // Event i is the last START before j.
  ghost predicate LastStart(es: seq<Event>, i: nat, j: nat) {
    i < j <= |es| && es[i].Start? && forall k :: i < k < j ==> !es[k].Start?
  }

  // The verification calls of an END switch nothing.
  lemma VerifySwitchesNothing(p: Partition, size: nat, sig: seq<byte>, v: Verifier, q: Partition)
    ensures SetBoot(q) !in Verify(p, size, sig, v).1
  {
    VerifyExact(p, size, sig, v);
  }

  lemma {:induction false} FlushesSwitchNothing(n: nat, q: Partition)
    ensures SetBoot(q) !in Flushes(n)
  {
    if n > 0 {
      FlushesSwitchNothing(n - 1, q);
    }
  }

  // An END that gets as far as the boot switch.
  predicate EndVerifies(s: Server, e: Event) {
    && e.End? && s.err.None? && e.endOk && !e.hasError && e.target.Some?
    && Verify(e.target.value, e.totalSize, s.sig, e.verifier).0
  }

  lemma OnlyEndSwitches(s: Server, e: Event, p: Partition)
    requires |s.sig| == 64 && SetBoot(p) in Step(s, e).fx
    ensures EndVerifies(s, e) && e.target == Some(p)
  {
    if e.Post? {
      FlushesSwitchNothing(REBOOT_FLUSH_COUNT, p);
    } else if e.End? && s.err.None? && e.target.Some? {
      VerifySwitchesNothing(e.target.value, e.totalSize, s.sig, e.verifier, p);
    }
  }

  lemma EndCalls(s: Server, e: Event)
    requires |s.sig| == 64 && EndVerifies(s, e)
    ensures var calls := [UpdateEnd] + Verify(e.target.value, e.totalSize, s.sig, e.verifier).1
                         + [SetBoot(e.target.value)];
      Step(s, e) == if e.setBootCode == 0 then Outcome(s, calls)
                    else Outcome(s.(err := Some(SetBootPartitionFailed)), calls + [NotifyError(SetBootPartitionFailed)])
  {
  }

  // Calls around a verification that read and feed nothing.
  lemma FedInside(fx: seq<Effect>, p: Partition, post: seq<Effect>)
    requires post == [] || post == [NotifyError(SetBootPartitionFailed)]
    ensures Fed([UpdateEnd] + fx + [SetBoot(p)] + post) == Fed(fx)
    ensures forall id, off, to ::
      ReadsTile([UpdateEnd] + fx + [SetBoot(p)] + post, id, off, to) == ReadsTile(fx, id, off, to)
  {
    var one := [UpdateEnd] + fx;
    FedAround(UpdateEnd, fx, SetBoot(p));
    FedAround(UpdateEnd, one, SetBoot(p));
    FedAround(UpdateEnd, one + [SetBoot(p)], NotifyError(SetBootPartitionFailed));
    assert one + [SetBoot(p)] + [] == one + [SetBoot(p)];
  }

  /** Any boot switch, anywhere in any event sequence, happens at an END of a healthy upload, for the
      partition that END verified, after feeding exactly its first totalSize bytes. */
  lemma BootOnlyAfterVerification(s: Server, e: Event, p: Partition)
    requires |s.sig| == 64 && SetBoot(p) in Step(s, e).fx
    ensures e.End? && s.err.None? && e.target == Some(p)
    ensures ImageVerified(p, e.totalSize, s.sig, e.verifier)
    ensures Fed(Step(s, e).fx) == p.content[..e.totalSize]
    ensures ReadsTile(Step(s, e).fx, p.id, 0, e.totalSize)
    ensures Step(s, e).server.err == if e.setBootCode == 0 then None else Some(SetBootPartitionFailed)
  {
    OnlyEndSwitches(s, e, p);
    EndCalls(s, e);
    VerifyExact(p, e.totalSize, s.sig, e.verifier);
    var fx := Verify(p, e.totalSize, s.sig, e.verifier).1;
    var post := if e.setBootCode == 0 then [] else [NotifyError(SetBootPartitionFailed)];
    FedInside(fx, p, post);
    var calls := [UpdateEnd] + fx + [SetBoot(p)];
    assert calls + [] == calls;
    assert Step(s, e).fx == calls + post;
  }

  // No START among the events a, ..., j - 1.
  ghost predicate NoStart(es: seq<Event>, a: nat, j: nat) {
    a <= j <= |es| && forall k :: a <= k < j ==> !es[k].Start?
  }

  // Without a START, a pending error stays and no error means every earlier step was healthy too.
  lemma {:induction false} HealthyBack(ss: seq<Server>, es: seq<Event>, a: nat, k: nat, j: nat)
    requires IsTrace(ss, es) && NoStart(es, a, j) && a <= k <= j
    requires ss[j].err.None?
    ensures ss[k].err.None? && ss[k].sig == ss[j].sig
    decreases j - k
  {
    if k < j {
      HealthyBack(ss, es, a, k + 1, j);
      assert ss[k + 1] == Step(ss[k], es[k]).server;
    }
  }

  /** The signature a boot switch was checked against is the one parsed at that session's START, and no
      event of the session up to it reported an error. */
  lemma BootUsesSessionSignature(ss: seq<Server>, es: seq<Event>, i: nat, j: nat, p: Partition)
    requires IsTrace(ss, es) && j < |es| && LastStart(es, i, j)
    requires SetBoot(p) in Step(ss[j], es[j]).fx
    ensures es[j].End? && ss[i].sodiumReady && es[i].beginOk && ValidSigHeader(es[i].header)
    ensures ImageVerified(p, es[j].totalSize, PairBytes(es[i].header), es[j].verifier)
    ensures forall k :: i < k <= j ==> ss[k].err.None?
  {
    BootOnlyAfterVerification(ss[j], es[j], p);
    forall k | i < k <= j
      ensures ss[k].err.None?
    {
      HealthyBack(ss, es, i + 1, k, j);
    }
    HealthyBack(ss, es, i + 1, i + 1, j);
    assert ss[i + 1] == Step(ss[i], es[i]).server;
  }

  predicate TouchesFlash(fx: Effect) {
    fx.UpdateWrite? || fx.UpdateEnd? || fx.SetBoot?
  }

  /** After an error, nothing is written, finalised or booted until the next START. */
  lemma {:induction false} ErrorsAreSticky(ss: seq<Server>, es: seq<Event>, k: nat, j: nat)
    requires IsTrace(ss, es) && k <= j < |es|
    requires ss[k].err.Some?
    requires forall m :: k <= m <= j ==> !es[m].Start?
    ensures ss[j].err.Some?
    ensures forall c :: c in Step(ss[j], es[j]).fx ==> !TouchesFlash(c)
  {
    if k < j {
      ErrorsAreSticky(ss, es, k, j - 1);
      assert ss[j] == Step(ss[j - 1], es[j - 1]).server;
    }
  }

  // ---- the session grammar ----

  function Run(s: Server, es: seq<Event>): (r: Server)
    requires |s.sig| == 64
    ensures |r.sig| == 64
    decreases |es|
  {
    if es == [] then s else Run(Step(s, es[0]).server, es[1..])
  }

  predicate WriteOk(started: uint32, e: Event) {
    e.Write? && Sub32(e.now, started) <= 300000 && e.written == |e.buf|
  }

  lemma {:induction false} WritesKeepHealth(s: Server, writes: seq<Event>)
    requires |s.sig| == 64 && forall k :: 0 <= k < |writes| ==> writes[k].Write?
    ensures var r := Run(s, writes);
      && r.sig == s.sig && r.uploadStart == s.uploadStart && r.sodiumReady == s.sodiumReady
      && (r.err.None? <==>
            s.err.None? && forall k :: 0 <= k < |writes| ==> WriteOk(s.uploadStart, writes[k]))
    decreases |writes|
  {
    if writes != [] {
      var t := Step(s, writes[0]).server;
      WritesKeepHealth(t, writes[1..]);
      assert forall k :: 0 < k < |writes| ==> writes[k] == writes[1..][k - 1];
    }
  }

  // START, any number of WRITEs, END or ABORTED, then the POST.
  predicate IsSession(start: Event, writes: seq<Event>, last: Event, post: Event) {
    && start.Start? && (forall k :: 0 <= k < |writes| ==> writes[k].Write?)
    && (last.End? || last.Aborted?) && post.Post?
  }

  function SessionReply(s: Server, start: Event, writes: seq<Event>, last: Event, post: Event): int
    requires |s.sig| == 64 && IsSession(start, writes, last, post)
  {
    PostCode(Step(Run(Step(s, start).server, writes), last).server, post.hasError)
  }

  lemma StartHealthy(s: Server, e: Event)
    requires |s.sig| == 64 && e.Start?
    ensures var r := Step(s, e).server;
      && (r.err.None? <==> s.sodiumReady && ValidSigHeader(e.header) && e.beginOk)
      && (r.err.None? ==> r.sig == PairBytes(e.header) && r.uploadStart == e.now)
  {
  }

  lemma LastHealthy(s: Server, e: Event)
    requires |s.sig| == 64 && (e.End? || e.Aborted?)
    ensures Step(s, e).server.err.None? <==>
      && s.err.None? && e.End? && e.endOk && !e.hasError && e.target.Some?
      && ImageVerified(e.target.value, e.totalSize, s.sig, e.verifier) && e.setBootCode == 0
  {
    if e.End? && e.target.Some? {
      VerifyExact(e.target.value, e.totalSize, s.sig, e.verifier);
    }
  }

  /** Under the session grammar, from any earlier server state, the client is told "Update Success" exactly
      when every step succeeded: the header parsed, every chunk was written in time, the flashed image
      verified under that header's signature, and the boot switch returned 0. */
  lemma SuccessReplyExact(s: Server, start: Event, writes: seq<Event>, last: Event, post: Event)
    requires |s.sig| == 64 && IsSession(start, writes, last, post)
    ensures SessionReply(s, start, writes, last, post) == 200 <==>
      && s.sodiumReady && ValidSigHeader(start.header) && start.beginOk
      && (forall k :: 0 <= k < |writes| ==> WriteOk(start.now, writes[k]))
      && last.End? && last.endOk && !last.hasError && last.target.Some?
      && ImageVerified(last.target.value, last.totalSize, PairBytes(start.header), last.verifier)
      && last.setBootCode == 0 && !post.hasError
  {
    var s1 := Step(s, start).server;
    StartHealthy(s, start);
    WritesKeepHealth(s1, writes);
    var s2 := Run(s1, writes);
    LastHealthy(s2, last);
    PostAloneSucceeds(Step(s2, last).server, post.hasError);
  }

  // ---- the upload window in true time ----

  /** On a healthy server, a chunk less than one clock wrap after its START is handed to the updater if and only if
      it comes within five minutes of true time; a later one aborts the upload as timed out. A chunk that the
      updater does not take whole is a failed write. */
  lemma ChunkExactly(s: Server, e: Event, start: nat, t: nat)
    requires |s.sig| == 64 && s.err.None? && e.Write?
    requires s.uploadStart == Millis(start) && e.now == Millis(t) && start <= t < start + WRAP
    ensures var o := Step(s, e);
      && (UpdateWrite(e.buf) in o.fx <==> t <= start + 300000)
      && (t <= start + 300000 ==>
            && o.server == s.(err := if e.written == |e.buf| then None else Some(UpdateWriteFailed))
            && o.fx == [UpdateWrite(e.buf)] + if e.written == |e.buf| then [] else [NotifyError(UpdateWriteFailed)])
      && (t > start + 300000 ==>
            o.server == s.(err := Some(UploadTimeout)) && o.fx == [UpdateAbort, NotifyError(UploadTimeout)])
  {
    ElapsedSound(t, start);
    var chunk := [UpdateWrite(e.buf)];
    assert chunk + [] == chunk;
  }

  // The true times at which the chunks of a session come, each less than one clock wrap after the START.
  ghost predicate TimesOf(ts: seq<nat>, start: nat, writes: seq<Event>) {
    && |ts| == |writes|
    && forall k :: 0 <= k < |writes| ==>
         writes[k].Write? && writes[k].now == Millis(ts[k]) && start <= ts[k] < start + WRAP
  }

  /** The success reply in true time: every chunk was taken whole no later than five minutes after the START. */
  lemma SuccessReplyInTime(s: Server, start: Event, writes: seq<Event>, last: Event, post: Event, at: nat,
                           ts: seq<nat>)
    requires |s.sig| == 64 && IsSession(start, writes, last, post)
    requires start.now == Millis(at) && TimesOf(ts, at, writes)
    ensures SessionReply(s, start, writes, last, post) == 200 <==>
      && s.sodiumReady && ValidSigHeader(start.header) && start.beginOk
      && (forall k :: 0 <= k < |writes| ==> ts[k] <= at + 300000 && writes[k].written == |writes[k].buf|)
      && last.End? && last.endOk && !last.hasError && last.target.Some?
      && ImageVerified(last.target.value, last.totalSize, PairBytes(start.header), last.verifier)
      && last.setBootCode == 0 && !post.hasError
  {
    forall k | 0 <= k < |writes|
      ensures WriteOk(start.now, writes[k]) <==> ts[k] <= at + 300000 && writes[k].written == |writes[k].buf|
    {
      ElapsedSound(ts[k], at);
    }
    SuccessReplyExact(s, start, writes, last, post);
  }

  // ---- which error is reported, and how ----

  /** A START forgets the session before it. It fails for the first of: the library is not ready, the header is not
      128 hex digits, the updater does not begin; the updater is begun only past the first two. */
  lemma StartExactly(s: Server, e: Event)
    requires |s.sig| == 64 && e.Start?
    ensures var o, valid := Step(s, e), |e.header| == 128 && AllHex(e.header);
      && o.server.uploadStart == e.now && o.server.sodiumReady == s.sodiumReady
      && o.server.err == (if !s.sodiumReady then Some(SodiumNotReady) else if !valid then Some(BadSignatureHeader)
                          else if !e.beginOk then Some(UpdateBeginFailed) else None)
      && (UpdateBegin in o.fx <==> s.sodiumReady && valid)
      && (forall err :: NotifyError(err) in o.fx <==> o.server.err == Some(err))
  {
  }

  /** An END on a healthy server reports the first stage that fails, and aborts the updater when the image does not
      verify; ABORTED always aborts it. A server with a pending error ignores END. */
  lemma EndExactly(s: Server, e: Event)
    requires |s.sig| == 64 && (e.End? || e.Aborted?)
    ensures var o := Step(s, e);
      && (e.Aborted? ==> o.server.err == Some(UploadAborted) && o.fx == [UpdateAbort, NotifyError(UploadAborted)])
      && (e.End? && s.err.Some? ==> o == Outcome(s, []))
      && (e.End? && s.err.None? ==>
            var verified := e.target.Some? && ImageVerified(e.target.value, e.totalSize, s.sig, e.verifier);
            && o.server == s.(err := if !e.endOk then Some(UpdateEndFailed) else if e.hasError then Some(UpdateError)
                                     else if e.target.None? then Some(NoOtaPartition)
                                     else if !verified then Some(SignatureVerifyFailed)
                                     else if e.setBootCode != 0 then Some(SetBootPartitionFailed) else None)
            && |o.fx| > 0 && o.fx[0] == UpdateEnd
            && (UpdateAbort in o.fx <==> o.server.err == Some(SignatureVerifyFailed)))
  {
    if e.End? && s.err.None? && e.endOk && !e.hasError && e.target.Some? {
      VerifyExact(e.target.value, e.totalSize, s.sig, e.verifier);
      var fx := Verify(e.target.value, e.totalSize, s.sig, e.verifier).1;
      var all := Step(s, e).fx;
      if EndVerifies(s, e) {
        EndCalls(s, e);
      } else {
        assert all == [UpdateEnd] + fx + [UpdateAbort] + [NotifyError(SignatureVerifyFailed)];
        assert all[|fx| + 1] == UpdateAbort;
      }
    }
  }

  lemma LowerLetter(s: string, c: char)
    requires c in LowerAll(s)
    ensures c in s || ('a' <= c <= 'z' && c - 'a' + 'A' in s)
  {
    var i: nat :| i < |s| && LowerAll(s)[i] == c;
    assert Lower(s[i]) == c;
  }

  // A word with a letter that the message lacks in either case is not in the message.
  lemma MissingLetter(message: string, word: string, c: char)
    requires 'a' <= c <= 'z' && c in word && c !in message && c - 'a' + 'A' !in message
    ensures !Contains(LowerAll(message), word)
  {
    if Contains(LowerAll(message), word) {
      FoundLetter(LowerAll(message), word, c);
      LowerLetter(message, c);
    }
  }

  predicate NoCapitals(s: string) {
    forall i :: 0 <= i < |s| ==> !('A' <= s[i] <= 'Z')
  }

  predicate OfUpdater(err: OtaError) {
    err in {UpdateWriteFailed, UpdateEndFailed, UpdateError, UpdateBeginFailed}
  }

  predicate OfUpload(err: OtaError) {
    err in {NoOtaPartition, SetBootPartitionFailed, UploadAborted, UploadTimeout}
  }

  lemma UpdaterG(err: OtaError)
    requires OfUpdater(err) && err != UpdateBeginFailed
    ensures 'g' !in ErrorMessage(err)
  {
  }

  lemma UpdaterS(err: OtaError)
    requires OfUpdater(err)
    ensures 's' !in ErrorMessage(err)
  {
  }

  lemma UpdaterCapitals(err: OtaError)
    requires OfUpdater(err)
    ensures NoCapitals(ErrorMessage(err))
  {
  }

  lemma UploadG(err: OtaError)
    requires OfUpload(err)
    ensures 'g' !in ErrorMessage(err)
  {
  }

  lemma UploadS(err: OtaError)
    requires err in {NoOtaPartition, UploadAborted, UploadTimeout}
    ensures 's' !in ErrorMessage(err)
  {
  }

  lemma UploadCapitals(err: OtaError)
    requires err in {SetBootPartitionFailed, UploadAborted, UploadTimeout}
    ensures NoCapitals(ErrorMessage(err))
  {
  }

  lemma LacksG(err: OtaError)
    requires (OfUpdater(err) && err != UpdateBeginFailed) || OfUpload(err)
    ensures 'g' !in ErrorMessage(err)
  {
    if OfUpdater(err) {
      UpdaterG(err);
    } else {
      UploadG(err);
    }
  }

  lemma LacksS(err: OtaError)
    requires OfUpdater(err) || (OfUpload(err) && err != SetBootPartitionFailed)
    ensures 's' !in ErrorMessage(err)
  {
    if OfUpdater(err) {
      UpdaterS(err);
    } else {
      UploadS(err);
    }
  }

  lemma NoCapital(message: string, c: char)
    requires NoCapitals(message) && 'A' <= c <= 'Z'
    ensures c !in message
  {
  }

  lemma LacksCapitals(err: OtaError)
    requires OfUpdater(err) || OfUpload(err)
    ensures 'G' !in ErrorMessage(err) && 'S' !in ErrorMessage(err)
  {
    if OfUpdater(err) || err != NoOtaPartition {
      if OfUpdater(err) {
        UpdaterCapitals(err);
      } else {
        UploadCapitals(err);
      }
      NoCapital(ErrorMessage(err), 'G');
      NoCapital(ErrorMessage(err), 'S');
    }
  }

  lemma NoRInBegin()
    ensures 'r' !in ErrorMessage(UpdateBeginFailed) && NoCapitals(ErrorMessage(UpdateBeginFailed))
  {
  }

  lemma NoGInSodium()
    ensures 'g' !in ErrorMessage(SodiumNotReady) && NoCapitals(ErrorMessage(SodiumNotReady))
  {
  }

  lemma NoMInSetBoot()
    ensures 'm' !in ErrorMessage(SetBootPartitionFailed) && NoCapitals(ErrorMessage(SetBootPartitionFailed))
  {
  }

  lemma NotSignature(err: OtaError)
    requires err !in {BadSignatureHeader, NoSignature, SignatureVerifyFailed}
    ensures !Contains(LowerAll(ErrorMessage(err)), "signature")
  {
    var word := "signature";
    assert word[2] == 'g' && word[7] == 'r';
    if err == UpdateBeginFailed {
      NoRInBegin();
      MissingLetter(ErrorMessage(err), word, 'r');
    } else if err == SodiumNotReady {
      NoGInSodium();
      MissingLetter(ErrorMessage(err), word, 'g');
    } else {
      LacksG(err);
      LacksCapitals(err);
      MissingLetter(ErrorMessage(err), word, 'g');
    }
  }

  lemma NotSodium(err: OtaError)
    requires err !in {BadSignatureHeader, NoSignature, SignatureVerifyFailed, SodiumNotReady}
    ensures !Contains(LowerAll(ErrorMessage(err)), "sodium")
  {
    var word := "sodium";
    assert word[0] == 's' && word[5] == 'm';
    if err == SetBootPartitionFailed {
      NoMInSetBoot();
      MissingLetter(ErrorMessage(err), word, 'm');
    } else {
      LacksS(err);
      LacksCapitals(err);
      MissingLetter(ErrorMessage(err), word, 's');
    }
  }

  lemma WordAt(message: string, word: string, i: nat)
    requires i + |word| <= |message|
    requires forall k :: 0 <= k < |word| ==> Lower(message[i + k]) == word[k]
    ensures Contains(LowerAll(message), word)
  {
    assert LowerAll(message)[i..i + |word|] == word;
    FoundAt(LowerAll(message), word, i);
  }

  lemma MarkedMessage(err: OtaError)
    requires err in {BadSignatureHeader, NoSignature, SignatureVerifyFailed}
    ensures Contains(LowerAll(ErrorMessage(err)), "signature")
  {
    WordAt(ErrorMessage(err), "signature", if err == SignatureVerifyFailed then 0 else 8);
  }

  lemma MessageClass(err: OtaError)
    ensures PostClass(err) ==
      if err in {BadSignatureHeader, NoSignature, SignatureVerifyFailed} then SignatureVerifyFailed
      else if err == SodiumNotReady then SodiumNotReady
      else UpdateError
  {
    if err in {BadSignatureHeader, NoSignature, SignatureVerifyFailed} {
      MarkedMessage(err);
    } else {
      NotSignature(err);
      if err == SodiumNotReady {
        WordAt("sodium library not ready", "sodium", 0);
      } else {
        NotSodium(err);
      }
    }
  }

  /** The whole reply. Errors about the signature or the library are forbidden (403), any other is a bad request
      (400), so the 401 reserved for a missing signature is never sent; a success is flushed ten times before the
      client is stopped and success is notified. */
  lemma ReplyExactly(s: Server, hasError: bool)
    ensures var o := OnPost(s, hasError);
      && o.server == s
      && (s.err.Some? ==>
            var signature := s.err.value in {BadSignatureHeader, NoSignature, SignatureVerifyFailed};
            var sodium := s.err == Some(SodiumNotReady);
            o.fx == [Reply(if signature || sodium then 403 else 400),
                     NotifyError(if signature then SignatureVerifyFailed else if sodium then SodiumNotReady
                                 else UpdateError)])
      && (s.err.None? && hasError ==> o.fx == [Reply(400), NotifyError(UpdateError)])
      && (s.err.None? && !hasError ==>
            && |o.fx| == 14 && o.fx[0] == SetNoDelay && o.fx[1] == Reply(200)
            && (forall k :: 2 <= k < 12 ==> o.fx[k] == FlushClient)
            && o.fx[12] == StopClient && o.fx[13] == NotifySuccess)
  {
    if s.err.Some? {
      MessageClass(s.err.value);
    } else if !hasError {
      FlushCount(REBOOT_FLUSH_COUNT);
    }
  }

  lemma {:induction false} FlushCount(n: nat)
    ensures |Flushes(n)| == n && forall k :: 0 <= k < n ==> Flushes(n)[k] == FlushClient
  {
    if n > 0 {
      FlushCount(n - 1);
    }
  }

  /** Outside that grammar the reply says only that no error is pending: it is 200 exactly then, so a POST with
      no upload at all reports success. */
  lemma PostAloneSucceeds(s: Server, hasError: bool)
    ensures PostCode(s, hasError) == 200 <==> s.err.None? && !hasError
    ensures Reply(200) in OnPost(s, hasError).fx <==> s.err.None? && !hasError
  {
    if s.err.None? && !hasError {
      var fx := OnPost(s, hasError).fx;
      assert fx[1] == Reply(200);
    }
  }

  // The event boots an image that verified under sig, and the boot switch succeeded.
  ghost predicate BootsVerified(s: Server, e: Event, sig: seq<byte>)
    requires |s.sig| == 64
  {
    && e.End? && e.target.Some? && SetBoot(e.target.value) in Step(s, e).fx && e.setBootCode == 0
    && ImageVerified(e.target.value, e.totalSize, sig, e.verifier)
  }

  lemma HealthyEndBoots(s: Server, e: Event)
    requires |s.sig| == 64 && e.End? && Step(s, e).server.err.None?
    ensures BootsVerified(s, e, s.sig)
  {
    LastHealthy(s, e);
    VerifyExact(e.target.value, e.totalSize, s.sig, e.verifier);
    EndCalls(s, e);
  }

  /** What a 200 is worth in any event sequence at all. Over a stretch without a START before a POST that is
      answered 200, every END booted the image it verified; so the reply stands for a successful boot of a
      verified image exactly when the stretch holds an END. */
  lemma SuccessMeansBootExactly(ss: seq<Server>, es: seq<Event>, a: nat, j: nat)
    requires IsTrace(ss, es) && NoStart(es, a, j) && j < |es| && es[j].Post?
    requires Reply(200) in Step(ss[j], es[j]).fx
    ensures (exists k :: a <= k < j && BootsVerified(ss[k], es[k], ss[j].sig)) <==> exists k :: a <= k < j && es[k].End?
    ensures forall k :: a <= k < j && es[k].End? ==> BootsVerified(ss[k], es[k], ss[j].sig)
  {
    PostAloneSucceeds(ss[j], es[j].hasError);
    forall k | a <= k < j && es[k].End?
      ensures BootsVerified(ss[k], es[k], ss[j].sig)
    {
      HealthyBack(ss, es, a, k, j);
      HealthyBack(ss, es, a, k + 1, j);
      assert ss[k + 1] == Step(ss[k], es[k]).server;
      HealthyEndBoots(ss[k], es[k]);
    }
  }

  /** The same for a session: behind its last START, a 200 stands for the boot of an image verified under that
      START's signature exactly when an END came in between. Without one, the client is told success though
      nothing was verified or booted. */
  lemma SessionSuccessMeansBoot(ss: seq<Server>, es: seq<Event>, i: nat, j: nat)
    requires IsTrace(ss, es) && LastStart(es, i, j) && j < |es| && es[j].Post?
    requires Reply(200) in Step(ss[j], es[j]).fx
    ensures ValidSigHeader(es[i].header)
    ensures (exists k :: i < k < j && BootsVerified(ss[k], es[k], PairBytes(es[i].header)))
       <==> exists k :: i < k < j && es[k].End?
  {
    PostAloneSucceeds(ss[j], es[j].hasError);
    HealthyBack(ss, es, i + 1, i + 1, j);
    assert ss[i + 1] == Step(ss[i], es[i]).server;
    StartHealthy(ss[i], es[i]);
    SuccessMeansBootExactly(ss, es, i + 1, j);
  }
}
