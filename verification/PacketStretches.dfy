/** What the packet framer accepts, byte by byte, and what one pass takes from any buffer, by positions. */
module PacketStretches {
  import opened Machine
  import opened Text
  import opened PacketFramers

  // ---- the packet format ----

  function Total(s: seq<byte>): nat {
    if s == [] then 0 else s[0] as int + Total(s[1..])
  }

  // A payload as the sender frames it: two header bytes, its length, itself, and the sum of all that modulo 256.
  function Encode(payload: seq<byte>): seq<byte>
    requires |payload| < 0x100
  {
    var n: byte, checksum: byte := |payload|, (0xAA + 0x55 + |payload| + Total(payload)) % 0x100;
    [0xAA, 0x55, n] + payload + [checksum]
  }

  lemma {:induction false} TotalSnoc(s: seq<byte>, b: byte)
    ensures Total(s + [b]) == Total(s) + b as int
  {
    if s == [] {
      assert s + [b] == [b] && Total([b]) == b as int + Total([]);
    } else {
      assert (s + [b])[1..] == s[1..] + [b];
      TotalSnoc(s[1..], b);
    }
  }

  lemma {:induction false} SumIsTotal(s: seq<byte>)
    ensures Sum(s) == Total(s)
  {
    if s != [] {
      SumIsTotal(s[..|s| - 1]);
      TotalSnoc(s[..|s| - 1], s[|s| - 1]);
      assert s[..|s| - 1] + [s[|s| - 1]] == s;
    }
  }

  lemma TotalCons(b: byte, s: seq<byte>)
    ensures Total([b] + s) == b as int + Total(s)
  {
    assert ([b] + s)[1..] == s;
  }

  lemma HeaderTotal(n: byte, payload: seq<byte>)
    ensures Total([0xAA, 0x55, n] + payload) == 0xAA + 0x55 + n as int + Total(payload)
  {
    var one: seq<byte> := [n] + payload;
    var two: seq<byte> := [0x55] + one;
    TotalCons(n, payload);
    TotalCons(0x55, one);
    TotalCons(0xAA, two);
    assert [0xAA] + two == [0xAA, 0x55, n] + payload;
  }

  lemma EncodeSum(payload: seq<byte>)
    requires |payload| < 0x100
    ensures var p := Encode(payload);
      |p| == |payload| + 4 && Sum(p[..|p| - 1]) % 0x100 == p[|p| - 1] as int
  {
    var p, n: byte := Encode(payload), |payload|;
    HeaderTotal(n, payload);
    SumIsTotal([0xAA, 0x55, n] + payload);
    assert p[..|p| - 1] == [0xAA, 0x55, n] + payload;
  }

  lemma EncodedIsValid(payload: seq<byte>)
    requires |payload| < 0x100
    ensures ValidPacket(Encode(payload))
  {
    EncodeSum(payload);
    var p := Encode(payload);
    assert p[0] == 0xAA && p[1] == 0x55 && p[2] as int == |payload|;
  }

  lemma ValidIsEncoded(p: seq<byte>)
    requires ValidPacket(p)
    ensures |p| >= 4 && |p[3..|p| - 1]| < 0x100 && p == Encode(p[3..|p| - 1])
  {
    var payload := p[3..|p| - 1];
    EncodeSum(payload);
    var q := Encode(payload);
    assert p[..|p| - 1] == q[..|p| - 1];
    assert p == p[..|p| - 1] + [p[|p| - 1]] && q == q[..|p| - 1] + [q[|p| - 1]];
  }

  /** The valid packets are exactly the framed payloads of up to 255 bytes. */
  lemma ValidExactly(p: seq<byte>)
    ensures ValidPacket(p) <==> exists payload: seq<byte> :: |payload| < 0x100 && p == Encode(payload)
  {
    if payload: seq<byte> :| |payload| < 0x100 && p == Encode(payload) {
      EncodedIsValid(payload);
    }
    if ValidPacket(p) {
      ValidIsEncoded(p);
    }
  }

  // ---- one pass over a buffer ----

  // The first header bytes at or after from stand at i.
  ghost predicate NextHeader(buf: seq<byte>, from: nat, i: nat) {
    && from <= i && i + 1 < |buf| && buf[i] == 0xAA && buf[i + 1] == 0x55
    && forall k :: from <= k < i ==> !(buf[k] == 0xAA && buf[k + 1] == 0x55)
  }

  ghost predicate NoMoreHeader(buf: seq<byte>, from: nat) {
    forall k :: from <= k < |buf| - 1 ==> !(buf[k] == 0xAA && buf[k + 1] == 0x55)
  }

  // Where the stretch that a header at i announces ends.
  function StretchEnd(buf: seq<byte>, i: nat): nat
    requires i + 2 < |buf|
  {
    i + buf[i + 2] as int + 4
  }

  // From position from on, each stretch begins at the next header behind the one before and is complete.
  ghost predicate Stretches(buf: seq<byte>, from: nat, starts: seq<nat>)
    decreases |starts|
  {
    starts == []
    || (NextHeader(buf, from, starts[0]) && starts[0] + 2 < |buf| && StretchEnd(buf, starts[0]) <= |buf|
        && Stretches(buf, StretchEnd(buf, starts[0]), starts[1..]))
  }

  // The stretches that are valid packets, and where the last stretch ends.
  ghost function Taken(buf: seq<byte>, from: nat, starts: seq<nat>): (seq<seq<byte>>, nat)
    requires Stretches(buf, from, starts)
    decreases |starts|
  {
    if starts == [] then ([], from)
    else
      var p := buf[starts[0]..StretchEnd(buf, starts[0])];
      var (later, end) := Taken(buf, StretchEnd(buf, starts[0]), starts[1..]);
      ((if ValidPacket(p) then [p] else []) + later, end)
  }

  // What a pass leaves behind the last stretch: less than four bytes as they are, nothing when no header
  // follows, and otherwise everything from the next header, whose stretch is not complete.
  ghost predicate LeftBehind(buf: seq<byte>, end: nat, rest: seq<byte>)
    requires end <= |buf|
  {
    if |buf| - end < 4 then rest == buf[end..]
    else if NoMoreHeader(buf, end) then rest == []
    else exists h: nat :: NextHeader(buf, end, h) && rest == buf[h..] && (h + 2 == |buf| || StretchEnd(buf, h) > |buf|)
  }

  lemma HeaderFrom(buf: seq<byte>, from: nat)
    requires from <= |buf|
    ensures var h := FirstHeader(buf[from..]);
      if h == |buf| - from then NoMoreHeader(buf, from) else NextHeader(buf, from, from + h)
  {
    var s := buf[from..];
    var h := FirstHeader(s);
    forall k | from <= k < |buf| - 1
      ensures HeaderAt(s, k - from) <==> buf[k] == 0xAA && buf[k + 1] == 0x55
    {
      assert s[k - from] == buf[k] && s[k - from + 1] == buf[k + 1];
    }
    if h < |s| {
      assert HeaderAt(s, h);
    }
  }

  lemma SliceRest(buf: seq<byte>, h: nat, n: nat)
    requires h + n <= |buf|
    ensures buf[h..][..n] == buf[h..h + n] && buf[h..][n..] == buf[h + n..]
  {
  }

  // A complete stretch at the next header is taken.
  lemma TakeStep(b: seq<byte>, s: seq<byte>, p: seq<byte>, rest: seq<byte>)
    requires FirstHeader(b) < |b| && s == b[FirstHeader(b)..] && 2 < |s| && PacketSize(s[2]) <= |s|
    requires p == s[..PacketSize(s[2])] && rest == s[PacketSize(s[2])..]
    ensures var more := Extract(rest);
      Extract(b) == Extracted((if ValidPacket(p) then [p] else []) + more.packets, more.rest)
  {
    PassStep(b, s);
  }

  lemma PassTakes(buf: seq<byte>, from: nat, b: seq<byte>, h: nat, p: seq<byte>, rest: seq<byte>)
    requires from <= |buf| && b == buf[from..] && h == from + FirstHeader(b)
    requires h + 2 < |buf| && StretchEnd(buf, h) <= |buf|
    requires p == buf[h..StretchEnd(buf, h)] && rest == buf[StretchEnd(buf, h)..]
    ensures NextHeader(buf, from, h)
    ensures var more := Extract(rest);
      Extract(b) == Extracted((if ValidPacket(p) then [p] else []) + more.packets, more.rest)
  {
    HeaderFrom(buf, from);
    SliceRest(buf, from, h - from);
    SliceRest(buf, h, StretchEnd(buf, h) - h);
    TakeStep(b, buf[h..], p, rest);
  }

  // Without one, the pass ends.
  lemma PassStops(buf: seq<byte>, from: nat, h: nat)
    requires from <= |buf| && h == from + FirstHeader(buf[from..])
    requires h + 2 < |buf| && |buf| - from >= 4 ==> StretchEnd(buf, h) > |buf|
    ensures Extract(buf[from..]).packets == [] && LeftBehind(buf, from, Extract(buf[from..]).rest)
  {
    var b := buf[from..];
    HeaderFrom(buf, from);
    if |b| >= 4 && h < |buf| {
      var s := buf[h..];
      assert s == b[FirstHeader(b)..] && (|s| > 2 ==> s[2] == buf[h + 2]);
      PassStep(b, s);
      assert NextHeader(buf, from, h);
    }
  }

  lemma TakenCons(buf: seq<byte>, from: nat, h: nat, later: seq<nat>)
    requires NextHeader(buf, from, h) && h + 2 < |buf| && StretchEnd(buf, h) <= |buf|
    requires Stretches(buf, StretchEnd(buf, h), later)
    ensures Stretches(buf, from, [h] + later)
    ensures var p, t := buf[h..StretchEnd(buf, h)], Taken(buf, StretchEnd(buf, h), later);
      Taken(buf, from, [h] + later) == ((if ValidPacket(p) then [p] else []) + t.0, t.1)
  {
    assert ([h] + later)[1..] == later;
  }

  lemma {:induction false} PassFrom(buf: seq<byte>, from: nat, b: seq<byte>) returns (starts: seq<nat>)
    requires from <= |buf| && b == buf[from..]
    ensures Stretches(buf, from, starts)
    ensures var (packets, end) := Taken(buf, from, starts);
      end <= |buf| && Extract(b).packets == packets && LeftBehind(buf, end, Extract(b).rest)
    decreases |buf| - from
  {
    var h := from + FirstHeader(b);
    if h + 2 < |buf| && StretchEnd(buf, h) <= |buf| {
      var end := StretchEnd(buf, h);
      var rest := buf[end..];
      PassTakes(buf, from, b, h, buf[h..end], rest);
      var later := PassFrom(buf, end, rest);
      TakenCons(buf, from, h, later);
      starts := [h] + later;
    } else {
      PassStops(buf, from, h);
      starts := [];
    }
  }

  /** What one pass takes from any buffer, by positions: stretch after stretch, each from the next header bytes over
      the length that follows them, valid or not; those that are valid packets are forwarded, in order, and the
      rest is what cannot be decided yet. */
  lemma PassExactly(buf: seq<byte>) returns (starts: seq<nat>)
    ensures Stretches(buf, 0, starts)
    ensures var (packets, end) := Taken(buf, 0, starts);
      end <= |buf| && Extract(buf).packets == packets && LeftBehind(buf, end, Extract(buf).rest)
  {
    assert buf[0..] == buf;
    starts := PassFrom(buf, 0, buf);
  }
}
