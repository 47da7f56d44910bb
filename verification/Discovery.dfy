/** Discovery packets: the host's writer and reader, and the device's writer. */
module Discovery {
  import opened Machine
  import opened Wrappers

  const MAGIC: seq<byte> := [0x56, 0x53, 0x49, 0x4D]
  const VERSION: byte := 1
  const PACKET_TYPE_DISCOVERY: byte := 1
  const HEADER_LEN: nat := 42
  const PACKET_LEN: nat := 106

  datatype Packet = Packet(deviceId: seq<byte>, nonce: seq<byte>, timestamp: uint64, canPort: uint16,
                           otaPort: uint16, signature: seq<byte>)
  {
    predicate Valid() {
      |deviceId| == 16 && |nonce| == 8 && |signature| == 64
    }
  }

  // ======== big-endian numbers ========

  // The number spelled by bytes, most significant first.
  function FromBytes(s: seq<byte>): nat {
    if s == [] then 0 else 0x100 * FromBytes(s[..|s| - 1]) + s[|s| - 1]
  }

  // The low n bytes of v, most significant first.
  function ToBytes(v: nat, n: nat): (s: seq<byte>)
    ensures |s| == n
  {
    if n == 0 then [] else ToBytes(v / 0x100, n - 1) + [v % 0x100]
  }

  function Pow256(n: nat): (r: nat)
    ensures r > 0
  {
    if n == 0 then 1 else 0x100 * Pow256(n - 1)
  }

  lemma {:induction false} FromToBytes(v: nat, n: nat)
    requires v < Pow256(n)
    ensures FromBytes(ToBytes(v, n)) == v
  {
    if n > 0 {
      FromToBytes(v / 0x100, n - 1);
      assert ToBytes(v, n)[..n - 1] == ToBytes(v / 0x100, n - 1);
    }
  }

  lemma {:induction false} ToFromBytes(s: seq<byte>)
    ensures FromBytes(s) < Pow256(|s|) && ToBytes(FromBytes(s), |s|) == s
  {
    if s != [] {
      ToFromBytes(s[..|s| - 1]);
      assert s[..|s| - 1] + [s[|s| - 1]] == s;
    }
  }

  lemma Widths()
    ensures Pow256(2) == 0x1_0000 && Pow256(8) == 0x1_0000_0000_0000_0000
  {
    assert Pow256(4) == 0x1_0000_0000 && Pow256(6) == 0x1_0000_0000_0000;
  }

  // ======== the wire format ========

  function Header(p: Packet): seq<byte> {
    MAGIC + [VERSION, PACKET_TYPE_DISCOVERY] + p.deviceId + p.nonce +
    ToBytes(p.timestamp, 8) + ToBytes(p.canPort, 2) + ToBytes(p.otaPort, 2)
  }

  function Wire(p: Packet): seq<byte> {
    Header(p) + p.signature
  }

  // What stands at each offset.
  lemma WireLayout(p: Packet)
    requires p.Valid()
    ensures var w := Wire(p);
      && |w| == PACKET_LEN && w[..4] == MAGIC && w[4] == VERSION && w[5] == PACKET_TYPE_DISCOVERY
      && w[6..22] == p.deviceId && w[22..30] == p.nonce && w[30..38] == ToBytes(p.timestamp, 8)
      && w[38..40] == ToBytes(p.canPort, 2) && w[40..42] == ToBytes(p.otaPort, 2) && w[42..] == p.signature
  {
  }

  lemma Spelled(s: seq<byte>, b: byte)
    ensures FromBytes(s + [b]) == 0x100 * FromBytes(s) + b as int
  {
    assert (s + [b])[..|s|] == s;
  }

  lemma SpelledTwo(s: seq<byte>)
    requires |s| == 2
    ensures FromBytes(s) == 0x100 * s[0] as int + s[1] as int
  {
    Spelled([], s[0]);
    Spelled([s[0]], s[1]);
    assert [] + [s[0]] == [s[0]] && [s[0]] + [s[1]] == s;
  }

  lemma SpelledFour(head: seq<byte>, s: seq<byte>)
    requires |s| == 4
    ensures FromBytes(head + s) == 0x1_0000_0000 * FromBytes(head) + 0x100_0000 * s[0] as int + 0x1_0000 * s[1] as int
                                   + 0x100 * s[2] as int + s[3] as int
  {
    var one := head + [s[0]];
    var two := one + [s[1]];
    var three := two + [s[2]];
    Spelled(head, s[0]);
    Spelled(one, s[1]);
    Spelled(two, s[2]);
    Spelled(three, s[3]);
    assert three + [s[3]] == head + s;
  }

  lemma SpelledEight(s: seq<byte>)
    requires |s| == 8
    ensures FromBytes(s) ==
      0x1_0000_0000 * (0x100_0000 * s[0] as int + 0x1_0000 * s[1] as int + 0x100 * s[2] as int + s[3] as int)
      + (0x100_0000 * s[4] as int + 0x1_0000 * s[5] as int + 0x100 * s[6] as int + s[7] as int)
  {
    var high, low := s[..4], s[4..];
    SpelledFour([], high);
    SpelledFour(high, low);
    assert [] + high == high && high + low == s;
  }

  /** The packet on the wire, byte by byte: "VSIM", version 1, type 1, the id, the nonce, and the numbers with their
      most significant byte first. */
  lemma WireExactly(p: Packet)
    requires p.Valid()
    ensures var w := Wire(p);
      && |w| == 106 && w[..6] == [0x56, 0x53, 0x49, 0x4D, 1, 1]
      && w[6..22] == p.deviceId && w[22..30] == p.nonce && w[42..] == p.signature
      && p.timestamp as int ==
           0x1_0000_0000 * (0x100_0000 * w[30] as int + 0x1_0000 * w[31] as int + 0x100 * w[32] as int + w[33] as int)
           + (0x100_0000 * w[34] as int + 0x1_0000 * w[35] as int + 0x100 * w[36] as int + w[37] as int)
      && p.canPort as int == 0x100 * w[38] as int + w[39] as int
      && p.otaPort as int == 0x100 * w[40] as int + w[41] as int
  {
    var w := Wire(p);
    WireLayout(p);
    assert w[..6] == w[..4] + [w[4], w[5]];
    Widths();
    FromToBytes(p.timestamp, 8);
    FromToBytes(p.canPort, 2);
    FromToBytes(p.otaPort, 2);
    SpelledEight(w[30..38]);
    SpelledTwo(w[38..40]);
    SpelledTwo(w[40..42]);
  }

  // dst[at..at + |src|] := src
  method Copy(src: seq<byte>, dst: array<byte>, at: nat)
    requires at + |src| <= dst.Length
    modifies dst
    ensures dst[..] == old(dst[..at]) + src + old(dst[at + |src|..])
  {
    var i := 0;
    while i < |src|
      invariant 0 <= i <= |src|
      invariant dst[..] == old(dst[..at]) + src[..i] + old(dst[at + i..])
    {
      assert dst[at + i] == old(dst[at + i..])[0];
      dst[at + i] := src[i];
      i := i + 1;
    }
  }

  // Bytes from the least significant end, as the shifting loops write them.
  method WriteBigEndian(dst: array<byte>, at: nat, n: nat, value: nat)
    requires at + n <= dst.Length
    modifies dst
    ensures dst[..] == old(dst[..at]) + ToBytes(value, n) + old(dst[at + n..])
  {
    var i, v := n, value;
    assert ToBytes(v, i) + [] == ToBytes(value, n);
    ghost var done: seq<byte> := [];
    while i > 0
      invariant 0 <= i <= n && |done| == n - i
      invariant ToBytes(v, i) + done == ToBytes(value, n)
      invariant dst[..] == old(dst[..at + i]) + done + old(dst[at + n..])
    {
      i := i - 1;
      dst[at + i] := v % 0x100;
      done := [v % 0x100] + done;
      v := v / 0x100;
    }
    assert ToBytes(v, 0) + done == done;
  }

  method ReadBigEndian(src: seq<byte>) returns (value: nat)
    ensures value == FromBytes(src)
  {
    value := 0;
    var i := 0;
    while i < |src|
      invariant 0 <= i <= |src| && value == FromBytes(src[..i])
    {
      assert src[..i + 1][..i] == src[..i];
      value := 0x100 * value + src[i];
      i := i + 1;
    }
    assert src[..i] == src;
  }

  /** The host's writer fills the first 106 bytes and leaves the rest. */
  method Serialize(p: Packet, out: array<byte>)
    requires p.Valid() && out.Length >= PACKET_LEN
    modifies out
    ensures out[..] == Wire(p) + old(out[PACKET_LEN..])
  {
    ghost var tail := out[PACKET_LEN..];
    Copy(MAGIC, out, 0);
    out[4] := VERSION;
    out[5] := PACKET_TYPE_DISCOVERY;
    assert out[..6] == MAGIC + [VERSION, PACKET_TYPE_DISCOVERY] && out[PACKET_LEN..] == tail;
    CopyNext(p.deviceId, out, 6);
    CopyNext(p.nonce, out, 22);
    WriteNext(out, 30, 8, p.timestamp);
    WriteNext(out, 38, 2, p.canPort);
    WriteNext(out, 40, 2, p.otaPort);
    CopyNext(p.signature, out, HEADER_LEN);
    assert out[..] == out[..PACKET_LEN] + out[PACKET_LEN..];
  }

  // Writes that go on where the last one ended.
  method CopyNext(src: seq<byte>, out: array<byte>, at: nat)
    requires at + |src| <= PACKET_LEN <= out.Length
    modifies out
    ensures out[..at + |src|] == old(out[..at]) + src
    ensures out[PACKET_LEN..] == old(out[PACKET_LEN..])
  {
    Copy(src, out, at);
  }

  method WriteNext(out: array<byte>, at: nat, n: nat, value: nat)
    requires at + n <= PACKET_LEN <= out.Length
    modifies out
    ensures out[..at + n] == old(out[..at]) + ToBytes(value, n)
    ensures out[PACKET_LEN..] == old(out[PACKET_LEN..])
  {
    WriteBigEndian(out, at, n, value);
  }

  function Parse(data: seq<byte>): Option<Packet> {
    if |data| < PACKET_LEN || data[..4] != MAGIC || data[4] != VERSION || data[5] != PACKET_TYPE_DISCOVERY then None
    else
      Widths();
      ToFromBytes(data[30..38]);
      ToFromBytes(data[38..40]);
      ToFromBytes(data[40..42]);
      var canPort := FromBytes(data[38..40]);
      if canPort == 0 then None
      else Some(Packet(data[6..22], data[22..30], FromBytes(data[30..38]), canPort, FromBytes(data[40..42]),
                       data[42..PACKET_LEN]))
  }

  /** The host's reader accepts exactly the byte strings that begin with the wire form of a packet with a CAN
      port, and returns that packet. */
  method ParsePacket(data: seq<byte>) returns (r: Option<Packet>)
    ensures r == Parse(data)
  {
    if |data| < PACKET_LEN {
      return None;
    }
    var i := 0;
    while i < |MAGIC|
      invariant 0 <= i <= |MAGIC| && data[..i] == MAGIC[..i]
    {
      if data[i] != MAGIC[i] {
        assert data[..4][i] != MAGIC[i];
        return None;
      }
      i := i + 1;
    }
    assert MAGIC[..i] == MAGIC;
    if data[4] != VERSION || data[5] != PACKET_TYPE_DISCOVERY {
      return None;
    }
    Widths();
    ToFromBytes(data[30..38]);
    ToFromBytes(data[38..40]);
    ToFromBytes(data[40..42]);
    var timestamp := ReadBigEndian(data[30..38]);
    var canPort := ReadBigEndian(data[38..40]);
    if canPort == 0 {
      return None;
    }
    var otaPort := ReadBigEndian(data[40..42]);
    return Some(Packet(data[6..22], data[22..30], timestamp, canPort, otaPort, data[42..PACKET_LEN]));
  }

  /** Reading what was written gives the packet back exactly when its CAN port is not zero, whatever follows it
      in the buffer; otherwise nothing is accepted. */
  lemma SerializeThenParse(p: Packet, tail: seq<byte>)
    requires p.Valid()
    ensures Parse(Wire(p) + tail) == if p.canPort != 0 then Some(p) else None
  {
    var w, data := Wire(p), Wire(p) + tail;
    WireLayout(p);
    Widths();
    FromToBytes(p.timestamp, 8);
    FromToBytes(p.canPort, 2);
    FromToBytes(p.otaPort, 2);
    Slices(w, tail);
  }

  lemma Slices(w: seq<byte>, tail: seq<byte>)
    requires |w| == PACKET_LEN
    ensures var data := w + tail;
      && data[..4] == w[..4] && data[4] == w[4] && data[5] == w[5]
      && data[6..22] == w[6..22] && data[22..30] == w[22..30] && data[30..38] == w[30..38]
      && data[38..40] == w[38..40] && data[40..42] == w[40..42] && data[42..PACKET_LEN] == w[42..]
  {
  }

  /** Writing what was accepted gives the first 106 bytes back: no accepted byte is lost. */
  lemma ParseThenSerialize(data: seq<byte>)
    requires Parse(data).Some?
    ensures var p := Parse(data).value; p.Valid() && p.canPort != 0 && Wire(p) == data[..PACKET_LEN]
  {
    var p := Parse(data).value;
    ToFromBytes(data[30..38]);
    ToFromBytes(data[38..40]);
    ToFromBytes(data[40..42]);
    Glue(data);
  }

  lemma Glue(data: seq<byte>)
    requires |data| >= PACKET_LEN
    ensures data[..4] + [data[4], data[5]] + data[6..22] + data[22..30] + data[30..38] + data[38..40] +
      data[40..42] + data[42..PACKET_LEN] == data[..PACKET_LEN]
  {
  }

  // ======== the device's writer ========

  // A 32-bit word as the little-endian target stores it.
  function LittleEndian32(v: uint32): (s: seq<byte>)
    ensures |s| == 4
  {
    [v % 0x100, v / 0x100 % 0x100, v / 0x1_0000 % 0x100, v / 0x100_0000]
  }

  function Zeros(n: nat): (s: seq<byte>)
    ensures |s| == n
  {
    if n == 0 then [] else Zeros(n - 1) + [0]
  }

  // What the device means to announce: ports are 32 bits wide on its side.
  function Announced(deviceId: seq<byte>, tcpPort: uint32, otaPort: uint16, timestamp: uint64, nonce: uint32): Packet
  {
    Packet(deviceId, LittleEndian32(nonce) + Zeros(4), timestamp, tcpPort % 0x1_0000, otaPort, Zeros(64))
  }

  method BuildDiscoveryPacket(packet: array<byte>, deviceId: seq<byte>, tcpPort: uint32, otaPort: uint16,
                              timestamp: uint64, nonce: uint32)
    requires packet.Length == PACKET_LEN && |deviceId| == 16
    modifies packet
    ensures packet[..] == Wire(Announced(deviceId, tcpPort, otaPort, timestamp, nonce))
  {
    packet[0], packet[1], packet[2], packet[3] := 0x56, 0x53, 0x49, 0x4D;
    packet[4] := 1;
    packet[5] := 1;
    assert packet[..6] == MAGIC + [VERSION, PACKET_TYPE_DISCOVERY];
    CopyNext(deviceId, packet, 6);
    CopyNext(LittleEndian32(nonce) + Zeros(4), packet, 22);
    WriteNext(packet, 30, 8, timestamp);
    var port: seq<byte> := [tcpPort / 0x100 % 0x100, tcpPort % 0x100];
    PortBytes(tcpPort);
    CopyNext(port, packet, 38);
    WriteNext(packet, 40, 2, otaPort);
    CopyNext(Zeros(64), packet, 42);
    assert packet[..] == packet[..PACKET_LEN];
  }

  lemma PortBytes(tcpPort: uint32)
    ensures ToBytes(tcpPort % 0x1_0000, 2) == [tcpPort / 0x100 % 0x100, tcpPort % 0x100]
  {
    var q: int, v: int := tcpPort / 0x1_0000, tcpPort % 0x1_0000;
    var h, l := v / 0x100, v % 0x100;
    assert tcpPort == 0x100 * (0x100 * q + h) + l;
    assert tcpPort / 0x100 == 0x100 * q + h;
    assert ToBytes(h, 1) == [h];
  }

  lemma NonceBytes(nonce: uint32)
    ensures var b := LittleEndian32(nonce);
      nonce == b[0] as int + 0x100 * b[1] as int + 0x1_0000 * b[2] as int + 0x100_0000 * b[3] as int
  {
    var one := nonce / 0x100;
    assert nonce == 0x100 * one + nonce % 0x100;
    assert one / 0x100 == nonce / 0x1_0000;
    assert one / 0x1_0000 == nonce / 0x100_0000;
  }

  lemma {:induction false} ZerosAt(n: nat, k: nat)
    requires k < n
    ensures Zeros(n)[k] == 0
  {
    if k < n - 1 {
      ZerosAt(n - 1, k);
    }
  }

  /** The host accepts every packet the device builds, with the device's id, OTA port, time, and the nonce least
      significant byte first, under a zero signature, exactly when the TCP port's low 16 bits are not zero. */
  lemma DevicePacketParses(deviceId: seq<byte>, tcpPort: uint32, otaPort: uint16, timestamp: uint64, nonce: uint32)
    requires |deviceId| == 16
    ensures var p := Announced(deviceId, tcpPort, otaPort, timestamp, nonce);
      && Parse(Wire(p)) == (if tcpPort % 0x1_0000 != 0 then Some(p) else None)
      && p.Valid() && p.deviceId == deviceId && p.otaPort == otaPort && p.timestamp == timestamp
      && p.canPort == tcpPort % 0x1_0000 && (tcpPort <= 0xFFFF ==> p.canPort == tcpPort)
      && nonce == p.nonce[0] as int + 0x100 * p.nonce[1] as int + 0x1_0000 * p.nonce[2] as int
                  + 0x100_0000 * p.nonce[3] as int
      && (forall k :: 4 <= k < 8 ==> p.nonce[k] == 0)
      && (forall k :: 0 <= k < 64 ==> p.signature[k] == 0)
  {
    var p := Announced(deviceId, tcpPort, otaPort, timestamp, nonce);
    forall k | 0 <= k < 64
      ensures Zeros(64)[k] == 0 && (k < 4 ==> Zeros(4)[k] == 0)
    {
      ZerosAt(64, k);
      if k < 4 {
        ZerosAt(4, k);
      }
    }
    NonceBytes(nonce);
    assert forall k :: 4 <= k < 8 ==> p.nonce[k] == Zeros(4)[k - 4];
    SerializeThenParse(p, []);
    assert Wire(p) + [] == Wire(p);
  }
}
