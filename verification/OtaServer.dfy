/** The stateful OTA server: signature parsing and image verification are loops over buffers. */
module OtaServerImpl {
  import opened Machine
  import opened Text
  import opened OtaModel
  import opened Wrappers

  // i is the number of leading hex pairs.
  lemma {:induction false} LeadingPairsIs(hex: string, i: nat)
    requires 2 * i <= |hex| && |hex| % 2 == 0
    requires forall k :: 0 <= k < i ==> IsHexPair(hex, k)
    requires 2 * i == |hex| || !IsHexPair(hex, i)
    ensures LeadingPairs(hex) == 2 * i
  {
    if i > 0 {
      assert IsHexPair(hex, 0);
      forall k | 0 <= k < i - 1
        ensures IsHexPair(hex[2..], k)
      {
        assert IsHexPair(hex, k + 1);
      }
      assert 2 * i < |hex| ==> IsHexPair(hex[2..], i - 1) == IsHexPair(hex, i);
      LeadingPairsIs(hex[2..], i - 1);
    }
  }

  // The buffer after the scan stopped at pair i is the one SigAfter describes.
  lemma Stopped(hex: string, i: nat, before: seq<byte>, after: seq<byte>)
    requires |hex| == SIG_HEX_LEN && i <= 64 == |before| == |after|
    requires i == 64 || !IsHexPair(hex, i)
    requires forall k :: 0 <= k < i ==> IsHexPair(hex, k) && after[k] == PairVal(hex, k)
    requires forall k :: i <= k < 64 ==> after[k] == before[k]
    ensures ValidSigHeader(hex) == (i == 64) && after == SigAfter(before, hex)
  {
    LeadingPairsIs(hex, i);
    var prefix := hex[..2 * i];
    forall k | 0 <= k < i
      ensures PairBytes(prefix)[k] == after[k]
    {
      assert IsHexPair(hex, k);
      PairBytesAt(prefix, k);
    }
    if i == 64 {
      assert prefix == hex;
    }
  }

  class OtaUpdateServer {
    var sodiumReady: bool
    var uploadStartTime: uint32
    const otaSig: array<byte>
    var otaHasSig: bool
    var otaErr: Option<OtaError>

    // Calls made so far on the updater, flash, signature checker and HTTP peer.
    var fx: seq<Effect>

    ghost predicate Valid()
      reads this
    {
      otaSig.Length == 64
    }

    ghost function View(): Server
      requires Valid()
      reads this, otaSig
    {
      Server(sodiumReady, uploadStartTime, otaSig[..], otaHasSig, otaErr)
    }

    // setup(): the buffer content is whatever memory held.
    constructor (sodiumInitCode: int, uninitialised: seq<byte>)
      requires |uninitialised| == 64
      ensures Valid() && fresh(otaSig)
      ensures View() == Server(sodiumInitCode >= 0, 0, uninitialised, false, None) && fx == []
    {
      sodiumReady := sodiumInitCode >= 0;
      uploadStartTime, otaHasSig, otaErr, fx := 0, false, None, [];
      otaSig := new byte[64](i requires 0 <= i < 64 => uninitialised[i]);
    }

    method ReportError(err: OtaError)
      modifies this`otaErr, this`fx
      ensures otaErr == Some(err) && fx == old(fx) + [NotifyError(err)]
    {
      otaErr := Some(err);
      fx := fx + [NotifyError(err)];
    }

    method ParseHexSig(hex: string) returns (ok: bool)
      requires Valid()
      modifies otaSig
      ensures ok == ValidSigHeader(hex)
      ensures otaSig[..] == SigAfter(old(otaSig[..]), hex)
    {
      ghost var before := otaSig[..];
      if |hex| != SIG_HEX_LEN {
        assert otaSig[..] == PairBytes(hex[..0]) + before[0..];
        return false;
      }
      var i := 0;
      while i < 64
        invariant 0 <= i <= 64
        invariant forall k :: 0 <= k < i ==> IsHexPair(hex, k) && otaSig[k] == PairVal(hex, k)
        invariant forall k :: i <= k < 64 ==> otaSig[k] == before[k]
      {
        if !IsHex(hex[2 * i]) || !IsHex(hex[2 * i + 1]) {
          Stopped(hex, i, before, otaSig[..]);
          return false;
        }
        assert IsHexPair(hex, i);
        otaSig[i] := 16 * HexVal(hex[2 * i]) + HexVal(hex[2 * i + 1]);
        i := i + 1;
      }
      Stopped(hex, 64, before, otaSig[..]);
      ok := true;
    }

    method ReadAndFeed(p: Partition, off: nat, n: nat, v: Verifier) returns (clear: bool)
      requires off + n <= |p.content|
      modifies this`fx
      ensures clear == FeedChunk(p, off, n, v).0 && fx == old(fx) + FeedChunk(p, off, n, v).1
    {
      fx := fx + [FlashRead(p.id, off, n)];
      if v.readCode(off) != 0 {
        return false;
      }
      fx := fx + [HashUpdate(p.content[off..off + n])];
      clear := v.updateCode(off) == 0;
    }

    method VerifyPartition(p: Partition, size: uint32, v: Verifier) returns (ok: bool)
      requires Valid()
      modifies this`fx
      ensures ok == Verify(p, size, otaSig[..], v).0
      ensures fx == old(fx) + Verify(p, size, otaSig[..], v).1
    {
      if size > |p.content| {
        return false;
      }
      fx := fx + [HashInit];
      if v.initCode != 0 {
        return false;
      }
      var sig := otaSig[..];
      var fed: seq<byte>, off: uint32 := [], 0;
      ghost var whole := fx + VerifyFrom(p, size, sig, v, 0, []).1;
      while off < size
        invariant 0 <= off <= size
        invariant VerifyFrom(p, size, sig, v, 0, []).0 == VerifyFrom(p, size, sig, v, off, fed).0
        invariant fx + VerifyFrom(p, size, sig, v, off, fed).1 == whole
      {
        var n := ChunkLen(size, off);
        ghost var next := VerifyFrom(p, size, sig, v, off + n, fed + p.content[off..off + n]).1;
        Assoc(fx, FeedChunk(p, off, n, v).1, next);
        var clear := ReadAndFeed(p, off, n, v);
        if !clear {
          return false;
        }
        fed := fed + p.content[off..off + n];
        off := off + n;
      }
      fx := fx + [FinalVerify(sig)];
      ok := v.finalCode(fed, sig) == 0;
    }

    method HandleStart(e: Event)
      requires Valid() && e.Start?
      modifies this, otaSig
      ensures Valid() && View() == OnStart(old(View()), e).server
      ensures fx == old(fx) + OnStart(old(View()), e).fx
    {
      otaErr, otaHasSig, uploadStartTime := None, false, e.now;
      if !sodiumReady {
        ReportError(SodiumNotReady);
        return;
      }
      var parsed := ParseHexSig(e.header);
      if !parsed {
        ReportError(BadSignatureHeader);
        return;
      }
      assert e.header[..128] == e.header;
      otaHasSig := true;
      fx := fx + [UpdateBegin];
      if !e.beginOk {
        ReportError(UpdateBeginFailed);
      }
    }

    method HandleWrite(e: Event)
      requires Valid() && e.Write?
      modifies this
      ensures View() == OnWrite(old(View()), e).server
      ensures fx == old(fx) + OnWrite(old(View()), e).fx
    {
      if otaErr.None? {
        if TimedOut(e.now, uploadStartTime) {
          fx := fx + [UpdateAbort];
          ReportError(UploadTimeout);
          return;
        }
        fx := fx + [UpdateWrite(e.buf)];
        if e.written != |e.buf| {
          ReportError(UpdateWriteFailed);
        }
      }
    }

    method HandleEnd(e: Event)
      requires Valid() && e.End?
      modifies this
      ensures View() == OnEnd(old(View()), e).server
      ensures fx == old(fx) + OnEnd(old(View()), e).fx
    {
      if otaErr.Some? {
        return;
      }
      fx := fx + [UpdateEnd];
      if !e.endOk {
        ReportError(UpdateEndFailed);
        return;
      }
      if e.hasError {
        ReportError(UpdateError);
        return;
      }
      if e.target.None? {
        ReportError(NoOtaPartition);
        return;
      }
      var ok := VerifyPartition(e.target.value, e.totalSize, e.verifier);
      if !ok {
        fx := fx + [UpdateAbort];
        ReportError(SignatureVerifyFailed);
        return;
      }
      fx := fx + [SetBoot(e.target.value)];
      if e.setBootCode != 0 {
        ReportError(SetBootPartitionFailed);
      }
    }

    /** The multipart callback. */
    method HandleUpload(e: Event)
      requires Valid() && !e.Post?
      modifies this, otaSig
      ensures Valid() && View() == Step(old(View()), e).server
      ensures fx == old(fx) + Step(old(View()), e).fx
    {
      match e
      case Start(_, _, _) => HandleStart(e);
      case Write(_, _, _) => HandleWrite(e);
      case End(_, _, _, _, _, _) => HandleEnd(e);
      case Aborted =>
        fx := fx + [UpdateAbort];
        ReportError(UploadAborted);
    }

    method HandlePost(e: Event) returns (code: int)
      requires Valid() && e.Post?
      modifies this`fx
      ensures View() == Step(old(View()), e).server
      ensures fx == old(fx) + Step(old(View()), e).fx
      ensures code == PostCode(old(View()), e.hasError)
    {
      if otaErr.Some? {
        var lower := LowerAll(ErrorMessage(otaErr.value));
        var err := UpdateError;
        if Contains(lower, "signature") {
          err := SignatureVerifyFailed;
        } else if Contains(lower, "sodium") {
          err := SodiumNotReady;
        }
        code := HttpCode(err);
        fx := fx + [Reply(code), NotifyError(err)];
      } else if e.hasError {
        code := 400;
        fx := fx + [Reply(400), NotifyError(UpdateError)];
      } else {
        code := 200;
        ghost var before := fx;
        fx := fx + [SetNoDelay, Reply(200)];
        var i := 0;
        while i < REBOOT_FLUSH_COUNT
          invariant 0 <= i <= REBOOT_FLUSH_COUNT
          invariant fx == before + ([SetNoDelay, Reply(200)] + Flushes(i))
        {
          fx := fx + [FlushClient];
          i := i + 1;
        }
        fx := fx + [StopClient, NotifySuccess];
      }
    }
  }
}
