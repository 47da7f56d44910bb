/** The two BLE byte framers: header/length/checksum packets, and prompt-terminated responses. */
module PacketFramers {
  import opened Machine
  import opened Text

  // ======== header 0xAA 0x55, length, payload, checksum ========

  const HEADER_1: byte := 0xAA
  const HEADER_2: byte := 0x55

  function Sum(s: seq<byte>): nat {
    if s == [] then 0 else Sum(s[..|s| - 1]) + s[|s| - 1] as int
  }

  // Header, length byte, payload and checksum.
  function PacketSize(length: byte): nat {
    length as int + 4
  }

  predicate HeaderAt(s: seq<byte>, i: nat) {
    i + 1 < |s| && s[i] == HEADER_1 && s[i + 1] == HEADER_2
  }

  // The checksum loop over everything but the checksum byte.
  method CalculateChecksum(data: seq<byte>) returns (checksum: byte)
    requires data != []
    ensures checksum == Sum(data[..|data| - 1]) % 0x100
  {
    var sum: nat, i: nat := 0, 0;
    while i < |data| - 1
      invariant 0 <= i <= |data| - 1 && sum == Sum(data[..i])
    {
      assert data[..i + 1][..i] == data[..i];
      sum := sum + data[i] as int;
      i := i + 1;
    }
    checksum := sum % 0x100;
  }

  predicate ValidPacket(p: seq<byte>) {
    && |p| >= 4 && HeaderAt(p, 0)
    && |p| == PacketSize(p[2])
    && p[|p| - 1] == Sum(p[..|p| - 1]) % 0x100
  }

  method ValidatePacket(p: seq<byte>) returns (ok: bool)
    ensures ok == ValidPacket(p)
  {
    if |p| < 4 || p[0] != HEADER_1 || p[1] != HEADER_2 || |p| != PacketSize(p[2]) {
      return false;
    }
    var checksum := CalculateChecksum(p);
    ok := checksum == p[|p| - 1];
  }

  // The position of the first header, or |s|.
  function FirstHeader(s: seq<byte>): (i: nat)
    ensures i <= |s|
    ensures i < |s| ==> HeaderAt(s, i)
    ensures forall k: nat :: k < i ==> !HeaderAt(s, k)
  {
    if s == [] then 0 else if HeaderAt(s, 0) then 0 else
      var i := 1 + FirstHeader(s[1..]);
      assert forall k: nat :: 0 < k ==> HeaderAt(s, k) == HeaderAt(s[1..], k - 1);
      i
  }

  // What one extraction pass forwards from a buffer, and what it leaves there.
  datatype Extracted = Extracted(packets: seq<seq<byte>>, rest: seq<byte>)

  function Extract(buf: seq<byte>): Extracted
    decreases |buf|
  {
    if |buf| < 4 then Extracted([], buf)
    else
      var h := FirstHeader(buf);
      if h == |buf| then Extracted([], [])
      else
        var s := buf[h..];
        if |s| < 3 || |s| < PacketSize(s[2]) then Extracted([], s)
        else
          var p, more := s[..PacketSize(s[2])], Extract(s[PacketSize(s[2])..]);
          Extracted(Kept(p) + more.packets, more.rest)
  }

  // A header was found: either its packet is still incomplete, or it is taken and the pass goes on behind it.
  lemma PassStep(buf: seq<byte>, s: seq<byte>)
    requires |buf| >= 4 && FirstHeader(buf) < |buf| && s == buf[FirstHeader(buf)..]
    ensures |s| < 3 || |s| < PacketSize(s[2]) ==> Extract(buf) == Extracted([], s)
    ensures 3 <= |s| && PacketSize(s[2]) <= |s| ==>
      var p, more := s[..PacketSize(s[2])], Extract(s[PacketSize(s[2])..]);
      Extract(buf) == Extracted(Kept(p) + more.packets, more.rest)
  {
  }

  // Invalid packets are silently discarded.
  function Kept(p: seq<byte>): seq<seq<byte>> {
    if ValidPacket(p) then [p] else []
  }

  class TeslaTransport {
    var receiveBuffer: seq<byte>
    var forwarded: seq<seq<byte>>

    constructor ()
      ensures receiveBuffer == [] && forwarded == []
    {
      receiveBuffer, forwarded := [], [];
    }

    // Look for the header byte pair; i is the buffer length when there is none.
    method FindHeader() returns (i: nat)
      requires |receiveBuffer| >= 2
      ensures i == FirstHeader(receiveBuffer)
    {
      i := 0;
      while i <= |receiveBuffer| - 2
        invariant 0 <= i <= |receiveBuffer| - 1
        invariant forall k: nat :: k < i ==> !HeaderAt(receiveBuffer, k)
      {
        if receiveBuffer[i] == HEADER_1 && receiveBuffer[i + 1] == HEADER_2 {
          assert HeaderAt(receiveBuffer, i);
          return;
        }
        i := i + 1;
      }
      assert forall k: nat :: !HeaderAt(receiveBuffer, k);
      i := |receiveBuffer|;
    }

    method ExtractCompletePackets()
      modifies this
      ensures forwarded == old(forwarded) + Extract(old(receiveBuffer)).packets
      ensures receiveBuffer == Extract(old(receiveBuffer)).rest
    {
      ghost var target := old(forwarded) + Extract(receiveBuffer).packets;
      while |receiveBuffer| >= 4
        invariant forwarded + Extract(receiveBuffer).packets == target
        invariant Extract(receiveBuffer).rest == Extract(old(receiveBuffer)).rest
        decreases |receiveBuffer|
      {
        var headerPos := FindHeader();
        if headerPos == |receiveBuffer| {
          receiveBuffer := [];
          return;
        }
        PassStep(receiveBuffer, receiveBuffer[headerPos..]);
        receiveBuffer := receiveBuffer[headerPos..];
        if |receiveBuffer| < 3 || |receiveBuffer| < PacketSize(receiveBuffer[2]) {
          return;
        }
        var expectedPacketSize := PacketSize(receiveBuffer[2]);
        var packet := receiveBuffer[..expectedPacketSize];
        receiveBuffer := receiveBuffer[expectedPacketSize..];
        Assoc(forwarded, Kept(packet), Extract(receiveBuffer).packets);
        ForwardIfValid(packet);
      }
    }

    method ForwardIfValid(packet: seq<byte>)
      modifies this`forwarded
      ensures forwarded == old(forwarded) + Kept(packet)
    {
      var ok := ValidatePacket(packet);
      if ok {
        forwarded := forwarded + [packet];
      }
    }

    method ProcessIncomingData(data: seq<byte>)
      modifies this
      ensures forwarded == old(forwarded) + Extract(old(receiveBuffer) + data).packets
      ensures receiveBuffer == Extract(old(receiveBuffer) + data).rest
    {
      receiveBuffer := receiveBuffer + data;
      ExtractCompletePackets();
    }
  }

  // ---- reassembly ----

  // Feeding the chunks one notification at a time.
  function Feed(buf: seq<byte>, chunks: seq<seq<byte>>): Extracted
    decreases |chunks|
  {
    if chunks == [] then Extracted([], buf)
    else
      var now := Extract(buf + chunks[0]);
      var later := Feed(now.rest, chunks[1..]);
      Extracted(now.packets + later.packets, later.rest)
  }

  predicate AllValid(ps: seq<seq<byte>>) {
    forall k :: 0 <= k < |ps| ==> ValidPacket(ps[k])
  }

  // A valid packet that has only partly arrived.
  ghost predicate Partial(s: seq<byte>, p: seq<byte>) {
    ValidPacket(p) && |s| < |p| && s == p[..|s|]
  }

  lemma HeadPacket(p: seq<byte>, more: seq<byte>)
    requires ValidPacket(p)
    ensures Extract(p + more) == Extracted([p] + Extract(more).packets, Extract(more).rest)
  {
    var buf := p + more;
    assert HeaderAt(buf, 0) && FirstHeader(buf) == 0;
    assert buf[0..] == buf && buf[..|p|] == p && buf[|p|..] == more;
  }

  lemma PartialWaits(s: seq<byte>, p: seq<byte>)
    requires Partial(s, p)
    ensures Extract(s) == Extracted([], s)
  {
    if |s| >= 4 {
      assert HeaderAt(s, 0) && FirstHeader(s) == 0;
      assert s[0..] == s && s[2] == p[2];
    }
  }

  lemma HeadSlices(ps: seq<seq<byte>>, j: nat)
    requires j < |ps|
    ensures ps[..j + 1] == [ps[0]] + ps[1..][..j] && ps[j + 1..] == ps[1..][j..]
  {
  }

  // Two ways to cut one stream.
  lemma Cuts(a: seq<byte>, b: seq<byte>, p: seq<byte>, more: seq<byte>)
    requires a + b == p + more
    ensures |a| < |p| ==> a == p[..|a|]
    ensures |a| >= |p| ==> a == p + a[|p|..] && a[|p|..] + b == more
  {
    var s := a + b;
    assert s[..|a|] == a && s[|p|..] == more;
    if |a| < |p| {
      assert (p + more)[..|a|] == p[..|a|];
    } else {
      assert s[..|a|][..|p|] == (p + more)[..|p|] == p;
      assert s[|p|..] == a[|p|..] + b;
    }
  }

  // One pass over a prefix a of a clean stream a + b forwards the packets complete in a and keeps the
  // part of the next one.
  lemma {:induction false} CleanPass(ps: seq<seq<byte>>, a: seq<byte>, b: seq<byte>) returns (k: nat)
    requires AllValid(ps) && a + b == Concat(ps)
    ensures k <= |ps| && Extract(a).packets == ps[..k]
    ensures Extract(a).rest + b == Concat(ps[k..])
    ensures Extract(a).rest == [] || (k < |ps| && Partial(Extract(a).rest, ps[k]))
  {
    if ps == [] {
      k := 0;
      assert a == [];
    } else {
      var p, more := ps[0], Concat(ps[1..]);
      Cuts(a, b, p, more);
      if |a| < |p| {
        k := 0;
        PartialWaits(a, p);
        assert ps[0..] == ps;
      } else {
        var a' := a[|p|..];
        k := CleanPass(ps[1..], a', b);
        HeadPacket(p, a');
        HeadSlices(ps, k);
        k := k + 1;
      }
    }
  }

  lemma Rejoined(ps: seq<seq<byte>>, k: nat)
    requires k <= |ps|
    ensures ps[..k] + ps[k..] == ps
    ensures AllValid(ps) ==> AllValid(ps[k..])
  {
  }

  /** For any list of valid packets and any chunking of their concatenation (empty and one-byte chunks
      included), exactly those packets are forwarded, in order, and the buffer ends empty. */
  lemma {:induction false} Reassembly(ps: seq<seq<byte>>, held: seq<byte>, chunks: seq<seq<byte>>)
    requires AllValid(ps) && held + Concat(chunks) == Concat(ps)
    requires held == [] || (ps != [] && Partial(held, ps[0]))
    ensures Feed(held, chunks) == Extracted(ps, [])
    decreases |chunks|
  {
    if chunks == [] {
      assert held == Concat(ps);
    } else {
      Assoc(held, chunks[0], Concat(chunks[1..]));
      var now := Extract(held + chunks[0]);
      var k := CleanPass(ps, held + chunks[0], Concat(chunks[1..]));
      Rejoined(ps, k);
      Reassembly(ps[k..], now.rest, chunks[1..]);
    }
  }

  // ---- noise ----

  predicate PacketAt(stream: seq<byte>, p: seq<byte>, i: nat) {
    i + |p| <= |stream| && stream[i..i + |p|] == p
  }

  // The packets are disjoint stretches of the stream, in order, and rest is what follows at its end.
  ghost predicate Explains(stream: seq<byte>, packets: seq<seq<byte>>, rest: seq<byte>)
    decreases |packets|
  {
    if packets == [] then |rest| <= |stream| && stream[|stream| - |rest|..] == rest
    else exists i: nat :: PacketAt(stream, packets[0], i)
                          && Explains(stream[i + |packets[0]|..], packets[1..], rest)
  }

  lemma PacketShift(junk: seq<byte>, stream: seq<byte>, p: seq<byte>, i: nat)
    requires PacketAt(stream, p, i)
    ensures PacketAt(junk + stream, p, |junk| + i)
    ensures (junk + stream)[|junk| + i + |p|..] == stream[i + |p|..]
  {
    assert (junk + stream)[|junk| + i..|junk| + i + |p|] == stream[i..i + |p|];
  }

  lemma ExplainsSkip(junk: seq<byte>, stream: seq<byte>, packets: seq<seq<byte>>, rest: seq<byte>)
    requires Explains(stream, packets, rest)
    ensures Explains(junk + stream, packets, rest)
  {
    var s := junk + stream;
    if packets == [] {
      assert s[|s| - |rest|..] == stream[|stream| - |rest|..];
    } else {
      var p := packets[0];
      var i: nat :| PacketAt(stream, p, i) && Explains(stream[i + |p|..], packets[1..], rest);
      PacketShift(junk, stream, p, i);
    }
  }

  lemma ExplainsPacket(p: seq<byte>, stream: seq<byte>, packets: seq<seq<byte>>, rest: seq<byte>)
    requires Explains(stream, packets, rest)
    ensures Explains(p + stream, [p] + packets, rest)
  {
    var s, ps := p + stream, [p] + packets;
    assert s[0..|p|] == p && s[0 + |p|..] == stream && ps[1..] == packets;
    assert PacketAt(s, ps[0], 0);
  }

  lemma ExplainsAt(a: seq<byte>, p: seq<byte>, i: nat, b: seq<byte>, ps: seq<seq<byte>>, t: seq<byte>)
    requires PacketAt(a, p, i) && Explains(a[i + |p|..] + b, ps, t)
    ensures Explains(a + b, [p] + ps, t)
  {
    var s, all := a + b, [p] + ps;
    assert s[i..i + |p|] == a[i..i + |p|];
    assert s[i + |p|..] == a[i + |p|..] + b;
    assert all[1..] == ps;
    assert PacketAt(s, all[0], i);
  }

  lemma {:induction false} ExplainsThen(a: seq<byte>, ps: seq<seq<byte>>, r: seq<byte>,
                                        b: seq<byte>, qs: seq<seq<byte>>, t: seq<byte>)
    requires Explains(a, ps, r) && Explains(r + b, qs, t)
    ensures Explains(a + b, ps + qs, t)
    decreases |ps|
  {
    if ps == [] {
      var junk := a[..|a| - |r|];
      ExplainsSkip(junk, r + b, qs, t);
      assert a + b == junk + (r + b) && ps + qs == qs;
    } else {
      var p, more := ps[0], ps[1..];
      var i: nat :| PacketAt(a, p, i) && Explains(a[i + |p|..], more, r);
      var later := a[i + |p|..];
      ExplainsThen(later, more, r, b, qs, t);
      ExplainsAt(a, p, i, b, more + qs, t);
      assert ps + qs == [p] + (more + qs);
    }
  }

  lemma ExplainsWaiting(junk: seq<byte>, rest: seq<byte>)
    ensures Explains(junk + rest, [], rest)
  {
  }

  lemma {:induction false} PassIsSound(buf: seq<byte>)
    ensures AllValid(Extract(buf).packets)
    ensures Explains(buf, Extract(buf).packets, Extract(buf).rest)
    decreases |buf|
  {
    if |buf| < 4 {
      ExplainsWaiting([], buf);
      assert [] + buf == buf;
      return;
    }
    var h := FirstHeader(buf);
    var s := buf[h..];
    assert buf == buf[..h] + s;
    if h == |buf| {
      ExplainsWaiting(buf, []);
      assert buf + [] == buf;
      return;
    }
    if |s| < 3 || |s| < PacketSize(s[2]) {
      PassStep(buf, s);
      ExplainsWaiting(buf[..h], s);
    } else {
      PassIsSound(s[PacketSize(s[2])..]);
      SoundStep(buf, buf[..h], s, s[..PacketSize(s[2])], s[PacketSize(s[2])..]);
    }
  }

  lemma SoundStep(buf: seq<byte>, junk: seq<byte>, s: seq<byte>, p: seq<byte>, more: seq<byte>)
    requires |buf| >= 4 && FirstHeader(buf) < |buf| && s == buf[FirstHeader(buf)..] && junk == buf[..FirstHeader(buf)]
    requires 3 <= |s| && PacketSize(s[2]) <= |s| && p == s[..PacketSize(s[2])] && more == s[PacketSize(s[2])..]
    requires AllValid(Extract(more).packets) && Explains(more, Extract(more).packets, Extract(more).rest)
    ensures AllValid(Extract(buf).packets) && Explains(buf, Extract(buf).packets, Extract(buf).rest)
  {
    PassStep(buf, s);
    PassTook(junk, p, more, Extract(more).packets, Extract(more).rest);
    assert s == p + more && buf == junk + s;
  }

  lemma PassTook(junk: seq<byte>, p: seq<byte>, more: seq<byte>, packets: seq<seq<byte>>, rest: seq<byte>)
    requires p != [] && AllValid(packets) && Explains(more, packets, rest)
    ensures AllValid(Kept(p) + packets) && Explains(junk + (p + more), Kept(p) + packets, rest)
  {
    if ValidPacket(p) {
      ExplainsPacket(p, more, packets, rest);
    } else {
      ExplainsSkip(p, more, packets, rest);
      assert [] + packets == packets;
    }
    ExplainsSkip(junk, p + more, Kept(p) + packets, rest);
  }

  /** On any byte stream whatsoever, however chunked: everything forwarded is a valid packet, and the
      forwarded packets are disjoint stretches of the received bytes, in order. */
  lemma {:induction false} NothingInvented(held: seq<byte>, chunks: seq<seq<byte>>)
    ensures AllValid(Feed(held, chunks).packets)
    ensures Explains(held + Concat(chunks), Feed(held, chunks).packets, Feed(held, chunks).rest)
    decreases |chunks|
  {
    if chunks == [] {
      assert held + Concat(chunks) == held;
    } else {
      var buf := held + chunks[0];
      PassIsSound(buf);
      var now := Extract(buf);
      NothingInvented(now.rest, chunks[1..]);
      var later := Feed(now.rest, chunks[1..]);
      ExplainsThen(buf, now.packets, now.rest, Concat(chunks[1..]), later.packets, later.rest);
      Assoc(held, chunks[0], Concat(chunks[1..]));
    }
  }

  // ---- when chunking matters ----

  ghost predicate NoHeader(s: seq<byte>) {
    forall k: nat :: !HeaderAt(s, k)
  }

  // A cut between a and b separates the two header bytes.
  predicate CutsHeader(a: seq<byte>, b: seq<byte>) {
    a != [] && a[|a| - 1] == HEADER_1 && b != [] && b[0] == HEADER_2
  }

  lemma HeaderInPrefix(a: seq<byte>, b: seq<byte>, k: nat)
    requires k + 1 < |a|
    ensures HeaderAt(a + b, k) <==> HeaderAt(a, k)
  {
  }

  lemma HeaderInRest(a: seq<byte>, b: seq<byte>, k: nat)
    ensures HeaderAt(a + b, |a| + k) <==> HeaderAt(b, k)
  {
  }

  // The first header of a stays the first, whatever follows a.
  lemma FirstHeaderStays(a: seq<byte>, b: seq<byte>)
    requires FirstHeader(a) < |a|
    ensures FirstHeader(a + b) == FirstHeader(a)
  {
    var h := FirstHeader(a);
    HeaderInPrefix(a, b, h);
    forall k: nat | k < h
      ensures !HeaderAt(a + b, k)
    {
      HeaderInPrefix(a, b, k);
    }
  }

  lemma FirstHeaderNone(s: seq<byte>)
    ensures FirstHeader(s) == |s| <==> NoHeader(s)
  {
    if FirstHeader(s) == |s| {
      forall k: nat
        ensures !HeaderAt(s, k)
      {
        if k >= |s| {
          assert !HeaderAt(s, k);
        }
      }
    } else {
      assert HeaderAt(s, FirstHeader(s));
    }
  }

  // Behind a header-free run the first header is that of what follows, unless the cut hides one.
  lemma FirstHeaderBehind(a: seq<byte>, b: seq<byte>)
    requires NoHeader(a) && !CutsHeader(a, b)
    ensures FirstHeader(a + b) == |a| + FirstHeader(b)
  {
    var h := FirstHeader(b);
    forall k: nat | k < |a| + h
      ensures !HeaderAt(a + b, k)
    {
      if k + 1 < |a| {
        HeaderInPrefix(a, b, k);
      } else if k >= |a| {
        HeaderInRest(a, b, k - |a|);
      }
    }
    if h < |b| {
      HeaderInRest(a, b, h);
    } else {
      FirstHeaderNone(b);
      forall k: nat
        ensures !HeaderAt(a + b, k)
      {
        if k >= |a| {
          HeaderInRest(a, b, k - |a|);
        }
      }
      FirstHeaderNone(a + b);
    }
  }

  // What is extracted once the first header is found.
  lemma ExtractFrom(buf: seq<byte>, s: seq<byte>)
    requires |buf| >= 4 && FirstHeader(buf) < |buf| && s == buf[FirstHeader(buf)..]
    ensures Extract(buf).packets == Extract(s).packets
    ensures |s| >= 4 ==> FirstHeader(s) == 0 && Extract(buf) == Extract(s)
  {
    PassStep(buf, s);
    if |s| >= 4 {
      assert HeaderAt(s, 0) && s[0..] == s;
      PassStep(s, s);
    }
  }

  // A cleared run of noise takes nothing from what follows it.
  lemma NoiseThenStream(a: seq<byte>, b: seq<byte>)
    requires |a| >= 4 && NoHeader(a) && !CutsHeader(a, b)
    ensures Extract(a + b).packets == Extract(b).packets
  {
    FirstHeaderBehind(a, b);
    var h := FirstHeader(b);
    if h < |b| {
      var s := b[h..];
      assert (a + b)[|a| + h..] == s;
      ExtractFrom(a + b, s);
      if |b| >= 4 {
        ExtractFrom(b, s);
      }
    } else {
      FirstHeaderNone(b);
      FirstHeaderNone(a + b);
    }
  }

  // A header with an incomplete packet keeps its place whatever follows.
  lemma WaitingThenStream(a: seq<byte>, b: seq<byte>, s: seq<byte>)
    requires |a| >= 4 && FirstHeader(a) < |a| && s == a[FirstHeader(a)..]
    ensures Extract(a + b).packets == Extract(s + b).packets
  {
    FirstHeaderStays(a, b);
    DropPrefix(a, b, FirstHeader(a));
    ExtractFrom(a + b, s + b);
  }

  lemma DropPrefix(a: seq<byte>, b: seq<byte>, h: nat)
    requires h <= |a|
    ensures (a + b)[h..] == a[h..] + b
  {
  }

  /** One pass over a + b forwards what a pass over a and then a pass over its rest with b forward, unless the
      cut between a and b separates the two header bytes. */
  lemma {:induction false} PassSplits(a: seq<byte>, b: seq<byte>)
    requires !CutsHeader(a, b)
    ensures Extract(a + b).packets == Extract(a).packets + Extract(Extract(a).rest + b).packets
    decreases |a|
  {
    if |a| < 4 {
      assert [] + Extract(a + b).packets == Extract(a + b).packets;
    } else if FirstHeader(a) == |a| {
      FirstHeaderNone(a);
      NoiseThenStream(a, b);
      assert [] + b == b && [] + Extract(b).packets == Extract(b).packets;
    } else {
      var s := a[FirstHeader(a)..];
      PassStep(a, s);
      WaitingThenStream(a, b, s);
      if |s| < 3 || |s| < PacketSize(s[2]) {
        assert [] + Extract(s + b).packets == Extract(s + b).packets;
      } else {
        var n := PacketSize(s[2]);
        var more := s[n..];
        PacketTaken(s, b, n);
        assert more != [] ==> more[|more| - 1] == a[|a| - 1];
        PassSplits(more, b);
        Assoc(Kept(s[..n]), Extract(more).packets, Extract(Extract(more).rest + b).packets);
      }
    }
  }

  lemma PacketTaken(s: seq<byte>, b: seq<byte>, n: nat)
    requires HeaderAt(s, 0) && |s| >= 3 && n == PacketSize(s[2]) <= |s|
    ensures Extract(s + b).packets == Kept(s[..n]) + Extract(s[n..] + b).packets
  {
    var t := s + b;
    assert HeaderAt(t, 0) && FirstHeader(t) == 0 && t[0..] == t;
    assert t[2] == s[2] && t[..n] == s[..n] && t[n..] == s[n..] + b;
    PassStep(t, t);
  }

  // No boundary between reads separates the two header bytes.
  ghost predicate NoHeaderCut(chunks: seq<seq<byte>>) {
    forall k :: 0 < k < |chunks| ==> !CutsHeader(Concat(chunks[..k]), Concat(chunks[k..]))
  }

  // A pass over held would leave it as it is.
  predicate Waits(held: seq<byte>) {
    Extract(held) == Extracted([], held)
  }

  lemma {:induction false} RestWaits(buf: seq<byte>)
    ensures Waits(Extract(buf).rest)
    decreases |buf|
  {
    if |buf| >= 4 && FirstHeader(buf) < |buf| {
      var s := buf[FirstHeader(buf)..];
      PassStep(buf, s);
      if |s| < 3 || |s| < PacketSize(s[2]) {
        if |s| >= 4 {
          ExtractFrom(buf, s);
        }
      } else {
        RestWaits(s[PacketSize(s[2])..]);
      }
    }
  }

  lemma NoHeaderCutTail(chunks: seq<seq<byte>>)
    requires chunks != [] && NoHeaderCut(chunks)
    ensures NoHeaderCut(chunks[1..])
    ensures !CutsHeader(chunks[0], Concat(chunks[1..]))
  {
    var rest := chunks[1..];
    if rest != [] {
      ConcatHead(chunks, 0);
      assert Concat(rest[..0]) == [] && chunks[0] + [] == chunks[0];
      assert !CutsHeader(Concat(chunks[..1]), Concat(rest));
    }
    forall k | 0 < k < |rest|
      ensures !CutsHeader(Concat(rest[..k]), Concat(rest[k..]))
    {
      ConcatHead(chunks, k);
      assert !CutsHeader(Concat(chunks[..k + 1]), Concat(chunks[k + 1..]));
      CutBehind(chunks[0], Concat(rest[..k]), Concat(rest[k..]));
    }
  }

  lemma ConcatHead(chunks: seq<seq<byte>>, k: nat)
    requires k < |chunks|
    ensures Concat(chunks[..k + 1]) == chunks[0] + Concat(chunks[1..][..k])
    ensures chunks[k + 1..] == chunks[1..][k..]
  {
    var longer := chunks[..k + 1];
    assert longer[0] == chunks[0] && longer[1..] == chunks[1..][..k];
  }

  lemma CutBehind(first: seq<byte>, a: seq<byte>, b: seq<byte>)
    requires !CutsHeader(first + a, b)
    ensures !CutsHeader(a, b)
  {
    if a != [] {
      assert (first + a)[|first + a| - 1] == a[|a| - 1];
    }
  }

  /** For every byte stream, clean or noisy: if no boundary between reads separates the two header bytes, the
      reads do not matter. What is forwarded is what one pass over the whole stream forwards. */
  lemma {:induction false} ChunkingIsInvisible(held: seq<byte>, chunks: seq<seq<byte>>)
    requires Waits(held) && NoHeaderCut(chunks)
    ensures Feed(held, chunks).packets == Extract(held + Concat(chunks)).packets
    decreases |chunks|
  {
    if chunks == [] {
      assert held + [] == held;
    } else {
      var a, b := held + chunks[0], Concat(chunks[1..]);
      NoHeaderCutTail(chunks);
      RestWaits(a);
      ChunkingIsInvisible(Extract(a).rest, chunks[1..]);
      Assoc(held, chunks[0], b);
      if chunks[0] == [] {
        assert a == held;
        assert [] + Extract(held + b).packets == Extract(held + b).packets;
      } else {
        PassSplits(a, b);
      }
    }
  }

  lemma Once(chunk: seq<byte>)
    ensures Feed([], [chunk]) == Extract(chunk)
  {
    var chunks := [chunk];
    assert [] + chunk == chunk && chunks[1..] == [];
    assert Extract(chunk).packets + [] == Extract(chunk).packets;
  }

  lemma Twice(first: seq<byte>, second: seq<byte>)
    requires Extract(first) == Extracted([], [])
    ensures Feed([], [first, second]) == Extract(second)
  {
    var chunks := [first, second];
    assert [] + first == first && chunks[1..] == [second];
    Once(second);
    assert [] + Extract(second).packets == Extract(second).packets;
  }

  // A header-free run cannot end in the middle of a packet's header.
  lemma NoiseThenPacket(noise: seq<byte>, p: seq<byte>)
    requires NoHeader(noise) && ValidPacket(p)
    ensures Extract(noise + p).packets == [p]
    ensures NoHeader(noise + p[..1])
  {
    FirstHeaderBehind(noise, p);
    assert FirstHeader(p) == 0 && (noise + p)[|noise|..] == p;
    PassStep(noise + p, p);
    assert p[..|p|] == p && p[|p|..] == [] && [p] + [] == [p];
    var one := p[..1];
    forall k: nat
      ensures !HeaderAt(noise + one, k)
    {
      if k + 1 < |noise| {
        HeaderInPrefix(noise, one, k);
      }
    }
  }

  lemma TooShort(s: seq<byte>, p: seq<byte>)
    requires |s| < |p|
    ensures p !in Extract(s).packets
    decreases |s|
  {
    if |s| >= 4 && FirstHeader(s) < |s| {
      var t := s[FirstHeader(s)..];
      PassStep(s, t);
      if 3 <= |t| && PacketSize(t[2]) <= |t| {
        TooShort(t[PacketSize(t[2])..], p);
      }
    }
  }

  /** Between packets noise makes chunking matter: after any header-free run of three or more bytes, a cut
      between the two header bytes of a valid packet loses the packet that an uncut read forwards. */
  lemma NoiseChunkingMatters(noise: seq<byte>, p: seq<byte>)
    requires NoHeader(noise) && |noise| >= 3 && ValidPacket(p)
    ensures Feed([], [noise + p]).packets == [p]
    ensures p !in Feed([], [noise + p[..1], p[1..]]).packets
  {
    NoiseThenPacket(noise, p);
    Once(noise + p);
    var first := noise + p[..1];
    FirstHeaderNone(first);
    Twice(first, p[1..]);
    TooShort(p[1..], p);
  }

  // Noise too short to be cleared with a header byte only delays the packet.
  lemma {:induction false} ShortNoise(noise: seq<byte>, p: seq<byte>, held: seq<byte>, chunks: seq<seq<byte>>)
    requires NoHeader(noise) && |noise| < 3 && ValidPacket(p)
    requires held + Concat(chunks) == noise + p && |held| < 4
    ensures Feed(held, chunks).packets == [p]
    decreases |chunks|
  {
    var a, b := held + chunks[0], Concat(chunks[1..]);
    Assoc(held, chunks[0], b);
    if |a| < 4 {
      ShortNoise(noise, p, a, chunks[1..]);
      assert [] + [p] == [p];
    } else {
      var s := a[|noise|..];
      ShortNoiseCut(noise, p, a, b);
      PassStep(a, s);
      if |s| < |p| {
        Reassembly([p], s, chunks[1..]);
        assert [] + [p] == [p];
      } else {
        assert s[|p|..] == [] && s[..|p|] == s == p;
        Reassembly([], [], chunks[1..]);
        assert [p] + [] == [p];
      }
    }
  }

  lemma ShortNoiseCut(noise: seq<byte>, p: seq<byte>, a: seq<byte>, b: seq<byte>)
    requires NoHeader(noise) && |noise| < 3 && ValidPacket(p) && a + b == noise + p && |a| >= 4
    ensures FirstHeader(a) == |noise|
    ensures var s := a[|noise|..];
      && (|s| < |p| ==> Partial(s, p) && (|s| < 3 || |s| < PacketSize(s[2])) && s + b == p)
      && (|s| >= |p| ==> s == p && b == [])
      && |s| <= |p|
  {
    var s := a[|noise|..];
    Cuts(a, b, noise, p);
    assert a == noise + s && s + b == p;
    assert s == p[..|s|];
    assert HeaderAt(s, 0) && FirstHeader(s) == 0;
    FirstHeaderBehind(noise, s);
    if |s| >= 3 {
      assert s[2] == p[2];
    }
  }

  lemma TwoChunks(first: seq<byte>, second: seq<byte>)
    ensures Concat<byte>([first, second]) == first + second
  {
    var chunks: seq<seq<byte>> := [first, second];
    var rest := chunks[1..];
    assert rest == [second] && rest[1..] == [];
    assert Concat(rest) == second + [] == second;
  }

  lemma ShortNoiseForwards(noise: seq<byte>, p: seq<byte>, chunks: seq<seq<byte>>)
    requires NoHeader(noise) && |noise| < 3 && ValidPacket(p) && Concat(chunks) == noise + p
    ensures Feed([], chunks).packets == [p]
  {
    assert [] + Concat(chunks) == Concat(chunks);
    ShortNoise(noise, p, [], chunks);
  }

  lemma LosingCut(noise: seq<byte>, p: seq<byte>) returns (chunks: seq<seq<byte>>)
    requires NoHeader(noise) && |noise| >= 3 && ValidPacket(p)
    ensures Concat(chunks) == noise + p && p !in Feed([], chunks).packets
  {
    chunks := [noise + p[..1], p[1..]];
    NoiseChunkingMatters(noise, p);
    TwoChunks(noise + p[..1], p[1..]);
    Assoc(noise, p[..1], p[1..]);
    assert p[..1] + p[1..] == p;
  }

  /** And only there: behind a header-free run every way of cutting the stream forwards the packet exactly when
      the run is shorter than three bytes. */
  lemma NoiseChunkingExactly(noise: seq<byte>, p: seq<byte>)
    requires NoHeader(noise) && ValidPacket(p)
    ensures (forall chunks: seq<seq<byte>> :: Concat(chunks) == noise + p ==> Feed([], chunks).packets == [p])
       <==> |noise| < 3
  {
    if |noise| < 3 {
      forall chunks: seq<seq<byte>> | Concat(chunks) == noise + p
        ensures Feed([], chunks).packets == [p]
      {
        ShortNoiseForwards(noise, p, chunks);
      }
    } else {
      var chunks := LosingCut(noise, p);
      assert Feed([], chunks).packets != [p];
    }
  }

  // ======== prompt-terminated responses ========

  const PROMPT: byte := 0x3E
  const CR_BYTE: byte := 0x0D

  function StripCrs(s: seq<byte>): (r: seq<byte>)
    ensures |r| <= |s| && r == s[..|r|]
    ensures r == [] || r[|r| - 1] != CR_BYTE
    ensures forall i :: |r| <= i < |s| ==> s[i] == CR_BYTE
  {
    if s == [] || s[|s| - 1] != CR_BYTE then s else StripCrs(s[..|s| - 1])
  }

  // The non-empty responses among the prompt-terminated pieces, without their trailing CRs.
  function Responses(pieces: seq<seq<byte>>): seq<seq<byte>> {
    if pieces == [] then [] else
      (if StripCrs(pieces[0]) == [] then [] else [StripCrs(pieces[0])]) + Responses(pieces[1..])
  }

  // Empty responses are not forwarded.
  function Forwarded(response: seq<byte>): seq<seq<byte>> {
    if response == [] then [] else [response]
  }

  lemma NextResponse(buf: seq<byte>, i: nat)
    requires i == IndexOf(buf, PROMPT) < |buf|
    ensures Rest(buf, PROMPT) == Rest(buf[i + 1..], PROMPT)
    ensures Responses(Pieces(buf, PROMPT)) ==
      Forwarded(StripCrs(buf[..i])) + Responses(Pieces(buf[i + 1..], PROMPT))
  {
    assert Pieces(buf, PROMPT)[1..] == Pieces(buf[i + 1..], PROMPT);
  }

  class Obd2Transport {
    var receiveBuffer: seq<byte>
    var forwarded: seq<seq<byte>>

    constructor ()
      ensures receiveBuffer == [] && forwarded == []
    {
      receiveBuffer, forwarded := [], [];
    }

    method ExtractCleanResponses()
      modifies this
      ensures receiveBuffer == Rest(old(receiveBuffer), PROMPT)
      ensures forwarded == old(forwarded) + Responses(Pieces(old(receiveBuffer), PROMPT))
    {
      ghost var target := forwarded + Responses(Pieces(receiveBuffer, PROMPT));
      while receiveBuffer != []
        invariant forwarded + Responses(Pieces(receiveBuffer, PROMPT)) == target
        invariant Rest(receiveBuffer, PROMPT) == Rest(old(receiveBuffer), PROMPT)
        decreases |receiveBuffer|
      {
        var promptPos := IndexOf(receiveBuffer, PROMPT);
        if promptPos == |receiveBuffer| {
          return;
        }
        NextResponse(receiveBuffer, promptPos);
        var response := PopTrailingCrs(receiveBuffer[..promptPos]);
        receiveBuffer := receiveBuffer[promptPos + 1..];
        Assoc(forwarded, Forwarded(response), Responses(Pieces(receiveBuffer, PROMPT)));
        assert response == [] ==> forwarded + [] == forwarded;
        if response != [] {
          forwarded := forwarded + [response];
        }
      }
    }

    static method PopTrailingCrs(piece: seq<byte>) returns (response: seq<byte>)
      ensures response == StripCrs(piece)
    {
      response := piece;
      while response != [] && response[|response| - 1] == CR_BYTE
        invariant StripCrs(response) == StripCrs(piece)
        decreases |response|
      {
        response := response[..|response| - 1];
      }
    }

    method ProcessIncomingData(data: seq<byte>)
      modifies this
      ensures receiveBuffer == Rest(old(receiveBuffer) + data, PROMPT)
      ensures forwarded == old(forwarded) + Responses(Pieces(old(receiveBuffer) + data, PROMPT))
    {
      receiveBuffer := receiveBuffer + data;
      ExtractCleanResponses();
    }
  }

  // Feeding notifications one by one: what is forwarded in total, and what is left.
  function FeedResponses(buf: seq<byte>, chunks: seq<seq<byte>>): (seq<seq<byte>>, seq<byte>)
    decreases |chunks|
  {
    if chunks == [] then ([], buf)
    else
      var (later, rest) := FeedResponses(Rest(buf + chunks[0], PROMPT), chunks[1..]);
      (Responses(Pieces(buf + chunks[0], PROMPT)) + later, rest)
  }

  lemma {:induction false} ResponsesAppend(a: seq<seq<byte>>, b: seq<seq<byte>>)
    ensures Responses(a + b) == Responses(a) + Responses(b)
  {
    if a == [] {
      assert a + b == b;
    } else {
      assert (a + b)[1..] == a[1..] + b;
      ResponsesAppend(a[1..], b);
    }
  }

  /** For every byte stream and every chunking of it, the framer forwards the batch split at the prompts
      with trailing CRs stripped and empty responses dropped. */
  lemma {:induction false} FramerIsBatchSplit(buf: seq<byte>, chunks: seq<seq<byte>>)
    requires Lacks(buf, PROMPT)
    ensures var prompt: byte := 0x3E;
      FeedResponses(buf, chunks) ==
        (Responses(Pieces(buf + Concat(chunks), prompt)), Rest(buf + Concat(chunks), prompt))
    decreases |chunks|
  {
    if chunks == [] {
      assert buf + [] == buf;
      SplitNone(buf, PROMPT);
    } else {
      var now, later := buf + chunks[0], Concat(chunks[1..]);
      Assoc(buf, chunks[0], later);
      SplitAppend(now, later, PROMPT);
      ResponsesAppend(Pieces(now, PROMPT), Pieces(Rest(now, PROMPT) + later, PROMPT));
      FramerIsBatchSplit(Rest(now, PROMPT), chunks[1..]);
    }
  }

  // A piece that is more than CRs, and what it reads without those at its end.
  predicate HasText(piece: seq<byte>) {
    exists i :: 0 <= i < |piece| && piece[i] != 0x0D
  }

  predicate IsStrippedOf(piece: seq<byte>, response: seq<byte>) {
    && 0 < |response| <= |piece| && response == piece[..|response|] && response[|response| - 1] != 0x0D
    && forall i :: |response| <= i < |piece| ==> piece[i] == 0x0D
  }

  ghost function TakesPiece(): seq<byte> -> bool {
    (piece: seq<byte>) => HasText(piece)
  }

  ghost function MadeResponse(): (seq<byte>, seq<byte>) -> bool {
    (piece: seq<byte>, response: seq<byte>) => IsStrippedOf(piece, response)
  }

  lemma OnePiece(piece: seq<byte>)
    ensures HasText(piece) ==> Responses([piece]) == [StripCrs(piece)] && IsStrippedOf(piece, StripCrs(piece))
    ensures !HasText(piece) ==> Responses([piece]) == []
  {
    var r := StripCrs(piece);
    var one := [piece];
    assert one[1..] == [];
    if r != [] {
      assert piece[|r| - 1] == r[|r| - 1];
    }
    assert Responses(one) == (if r == [] then [] else [r]) + Responses([]);
  }

  /** The responses of the pieces, exactly: in order, one for each piece that is more than CRs, without the CRs at
      its end. */
  lemma {:induction false} ResponsesExactly(pieces: seq<seq<byte>>) returns (src: seq<nat>)
    ensures Selected(pieces, Responses(pieces), src, TakesPiece(), MadeResponse())
  {
    if pieces == [] {
      src := [];
    } else {
      var n := |pieces| - 1;
      var init, piece := pieces[..n], pieces[n];
      assert pieces == init + [piece];
      src := ResponsesExactly(init);
      ResponsesAppend(init, [piece]);
      OnePiece(piece);
      if HasText(piece) {
        SelectedTake(init, piece, Responses(init), StripCrs(piece), src, TakesPiece(), MadeResponse());
        src := src + [n];
      } else {
        assert Responses(init) + [] == Responses(init);
        SelectedSkip(init, piece, Responses(init), src, TakesPiece(), MadeResponse());
      }
    }
  }
}
