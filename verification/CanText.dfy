/** A CAN frame's way to the host: text encoding into a bounded buffer on the device, token parsing on the
    host, packing for the session, and unpacking at the signal source. */
module CanText {
  import opened Machine
  import opened Text
  import opened Wrappers

  const BUFFER_SIZE: nat := 32
  const NUL := '\0'

  // ======== device: bounded text encoding ========

  // "%X" of a number, and "%03X".
  function Digits(n: nat): (s: string)
    ensures s != "" && AllHex(s)
  {
    if n < 16 then [HexDigit(n)] else Digits(n / 16) + [HexDigit(n % 16)]
  }

  function Hex3(n: nat): (s: string)
    ensures |s| >= 3 && AllHex(s)
  {
    var s := Digits(n);
    if |s| == 1 then "00" + s else if |s| == 2 then "0" + s else s
  }

  function Least(a: int, b: int): int {
    if a < b then a else b
  }

  // The first i data bytes, each as " %02X".
  function DataText(data: seq<byte>, i: nat): (s: string)
    requires i <= |data|
    ensures |s| == 3 * i
  {
    if i == 0 then "" else DataText(data, i - 1) + " " + Hex2(data[i - 1])
  }

  function Body(id: uint32, data: seq<byte>, i: nat): string
    requires i <= |data|
  {
    Hex3(id) + DataText(data, i)
  }

  // What the device means to send.
  function Line(id: uint32, dlc: byte, data: seq<byte>): string
    requires |data| == 8
  {
    Body(id, data, Least(dlc, 8)) + "\r"
  }

  // The part of a line that a C string of BUFFER_SIZE bytes can hold.
  function Clipped(line: string): string {
    line[..Least(|line|, BUFFER_SIZE - 1)]
  }

  // What the device leaves in its buffer, by BuildFrameString.
  function Sent(id: uint32, dlc: byte, data: seq<byte>): string
    requires |data| == 8
  {
    Clipped(Line(id, dlc, data))
  }

  function CString(s: seq<char>): string {
    s[..IndexOf(s, NUL)]
  }

  // The buffer holds text, clipped to what fits, and its terminator.
  ghost predicate Holds(buf: seq<char>, text: string) {
    && |buf| == BUFFER_SIZE
    && (forall k :: 0 <= k < |text| && k < BUFFER_SIZE - 1 ==> buf[k] == text[k])
    && buf[Least(|text|, BUFFER_SIZE - 1)] == NUL
  }

  // snprintf at an offset: writes what fits, always terminates when there is room, returns the full length.
  method Snprintf(buf: array<char>, off: nat, size: nat, text: string) returns (n: nat)
    requires off + size == buf.Length
    modifies buf
    ensures n == |text|
    ensures forall k :: 0 <= k < off ==> buf[k] == old(buf[k])
    ensures size == 0 ==> buf[..] == old(buf[..])
    ensures size > 0 ==>
      && (forall k :: 0 <= k < |text| && k < size - 1 ==> buf[off + k] == text[k])
      && buf[off + Least(|text|, size - 1)] == NUL
  {
    n := |text|;
    if size == 0 {
      return;
    }
    var m := Least(|text|, size - 1);
    var k := 0;
    while k < m
      invariant 0 <= k <= m
      invariant forall j :: 0 <= j < off ==> buf[j] == old(buf[j])
      invariant forall j :: 0 <= j < k ==> buf[off + j] == text[j]
    {
      buf[off + k] := text[k];
      k := k + 1;
    }
    buf[off + m] := NUL;
  }

  lemma HoldsNext(before: seq<char>, after: seq<char>, text: string, piece: string)
    requires Holds(before, text) && |after| == BUFFER_SIZE && |text| <= BUFFER_SIZE
    requires forall k :: 0 <= k < |text| && k < BUFFER_SIZE ==> after[k] == before[k]
    requires |text| < BUFFER_SIZE ==>
      && (forall k :: 0 <= k < |piece| && k < BUFFER_SIZE - |text| - 1 ==> after[|text| + k] == piece[k])
      && after[|text| + Least(|piece|, BUFFER_SIZE - |text| - 1)] == NUL
    ensures Holds(after, text + piece)
  {
    forall k | 0 <= k < |text + piece| && k < BUFFER_SIZE - 1
      ensures after[k] == (text + piece)[k]
    {
      if k >= |text| {
        assert after[|text| + (k - |text|)] == piece[k - |text|];
      }
    }
  }

  lemma IdWidth(id: uint32)
    ensures |Hex3(id)| <= 8
    ensures |Hex3(id)| <= 6 <==> id < 0x100_0000
    ensures |Hex3(id)| <= 7 <==> id < 0x1000_0000
  {
    DigitCount(id, 6);
    DigitCount(id, 7);
    DigitCount(id, 8);
  }

  function Pow16(k: nat): nat {
    if k == 0 then 1 else 16 * Pow16(k - 1)
  }

  lemma {:induction false} DigitCount(n: nat, k: nat)
    requires k > 0
    ensures |Digits(n)| <= k <==> n < Pow16(k)
    ensures Pow16(6) == 0x100_0000 && Pow16(7) == 0x1000_0000 && Pow16(8) == 0x1_0000_0000
  {
    assert Pow16(2) == 0x100 && Pow16(4) == 0x1_0000;
    if k == 1 {
      assert Pow16(1) == 16;
    } else if n >= 16 {
      DigitCount(n / 16, k - 1);
    } else {
      Pow16Grows(k);
    }
  }

  lemma {:induction false} Pow16Grows(k: nat)
    requires k > 0
    ensures Pow16(k) >= 16
  {
    if k > 1 {
      Pow16Grows(k - 1);
    }
  }

  // One more snprintf after what the buffer already holds; the offset stays within the buffer.
  method Append(buf: array<char>, n: nat, ghost text: string, piece: string) returns (total: nat)
    requires buf.Length == BUFFER_SIZE && n == |text| <= BUFFER_SIZE
    requires Holds(buf[..], text)
    modifies buf
    ensures Holds(buf[..], text + piece) && total == |text + piece|
  {
    ghost var before := buf[..];
    var m := Snprintf(buf, n, buf.Length - n, piece);
    HoldsNext(before, buf[..], text, piece);
    total := n + m;
  }

  lemma BodyNext(id: uint32, data: seq<byte>, i: nat)
    requires i < |data|
    ensures Body(id, data, i) + (" " + Hex2(data[i])) == Body(id, data, i + 1)
  {
  }

  /** For every 32-bit identifier and every DLC: the write offset, returned as it stands before the terminator
      is written, never passes the buffer, and the C string left behind is the intended line cut to 31
      characters, so it is complete and CR-terminated exactly when the line and its terminator fit into 32. */
  method BuildFrameString(id: uint32, dlc: byte, data: seq<byte>, buf: array<char>) returns (offset: nat)
    requires |data| == 8 && buf.Length == BUFFER_SIZE
    modifies buf
    ensures offset + 1 == |Line(id, dlc, data)| && offset <= BUFFER_SIZE
    ensures CString(buf[..]) == Sent(id, dlc, data)
  {
    IdWidth(id);
    offset := Snprintf(buf, 0, buf.Length, Hex3(id));
    var len: nat := Least(dlc, 8);
    var i := 0;
    ghost var text := Hex3(id);
    assert Body(id, data, 0) == text;
    while i < len
      invariant 0 <= i <= len
      invariant text == Body(id, data, i) && offset == |text| <= 8 + 3 * i
      invariant Holds(buf[..], text)
    {
      BodyNext(id, data, i);
      offset := Append(buf, offset, text, " " + Hex2(data[i]));
      text := text + (" " + Hex2(data[i]));
      i := i + 1;
    }
    var total := Append(buf, offset, text, "\r");
    HeldString(buf[..], id, dlc, data);
  }

  lemma {:induction false} DataTextChars(data: seq<byte>, i: nat, k: nat)
    requires i <= |data| && k < 3 * i
    ensures DataText(data, i)[k] == ' ' || IsHex(DataText(data, i)[k])
  {
    if k < 3 * (i - 1) {
      DataTextChars(data, i - 1, k);
    }
  }

  lemma BodyChars(id: uint32, data: seq<byte>, i: nat, k: nat)
    requires i <= |data| && k < |Body(id, data, i)|
    ensures Body(id, data, i)[k] == ' ' || IsHex(Body(id, data, i)[k])
  {
    if k >= |Hex3(id)| {
      DataTextChars(data, i, k - |Hex3(id)|);
    }
  }

  lemma HeldString(buf: seq<char>, id: uint32, dlc: byte, data: seq<byte>)
    requires |data| == 8 && Holds(buf, Line(id, dlc, data))
    ensures CString(buf) == Sent(id, dlc, data)
  {
    var line := Line(id, dlc, data);
    var n := Least(|line|, BUFFER_SIZE - 1);
    forall k | 0 <= k < n
      ensures buf[k] == line[k] != NUL
    {
      if k < |line| - 1 {
        BodyChars(id, data, Least(dlc, 8), k);
      }
    }
    assert IndexOf(buf, NUL) == n;
  }

  // ======== host: token parsing ========

  datatype CanFrame = CanFrame(canId: uint16, data: seq<byte>)

  // Tokens completed so far and the one in progress.
  datatype Scanned = Scanned(tokens: seq<string>, current: string)

  function ScanChar(s: Scanned, c: char): Scanned {
    if IsHex(c) then Scanned(s.tokens, s.current + [Upper(c)])
    else if s.current != "" then Scanned(s.tokens + [s.current], "")
    else s
  }

  function Scan(s: string): Scanned {
    if s == "" then Scanned([], "") else ScanChar(Scan(s[..|s| - 1]), s[|s| - 1])
  }

  function Tokens(s: string): seq<string> {
    var r := Scan(s);
    if r.current != "" then r.tokens + [r.current] else r.tokens
  }

  method TokenizeHex(cleaned: string) returns (tokens: seq<string>)
    ensures tokens == Tokens(cleaned)
  {
    tokens := [];
    var current := "";
    var i := 0;
    while i < |cleaned|
      invariant 0 <= i <= |cleaned|
      invariant Scanned(tokens, current) == Scan(cleaned[..i])
    {
      var c := cleaned[i];
      assert cleaned[..i + 1][..i] == cleaned[..i];
      if IsHex(c) {
        current := current + [Upper(c)];
      } else if current != "" {
        tokens := tokens + [current];
        current := "";
      }
      i := i + 1;
    }
    assert cleaned[..i] == cleaned;
    if current != "" {
      tokens := tokens + [current];
    }
  }

  // ---- what the tokens are ----

  predicate NoHex(s: string) {
    forall k :: 0 <= k < |s| ==> !IsHex(s[k])
  }

  // The tokens with what stands before, between and behind them.
  function Weave(seps: seq<string>, tokens: seq<string>): string
    requires |seps| == |tokens| + 1
    decreases |tokens|
  {
    var n := |tokens|;
    if n == 0 then seps[0] else Weave(seps[..n], tokens[..n - 1]) + tokens[n - 1] + seps[n]
  }

  // Non-empty runs of hex digits, kept apart by non-empty text without hex digits.
  ghost predicate AreRuns(seps: seq<string>, tokens: seq<string>) {
    && |seps| == |tokens| + 1
    && (forall k :: 0 <= k < |tokens| ==> tokens[k] != "" && AllHex(tokens[k]))
    && (forall k :: 0 <= k < |seps| ==> NoHex(seps[k]))
    && (forall k :: 0 < k < |tokens| ==> seps[k] != "")
  }

  // The last token goes on.
  lemma RunGrows(seps: seq<string>, tokens: seq<string>, c: char)
    requires AreRuns(seps, tokens) && tokens != [] && seps[|tokens|] == "" && IsHex(c)
    ensures var n := |tokens|; var grown := tokens[..n - 1] + [tokens[n - 1] + [c]];
      AreRuns(seps, grown) && Weave(seps, grown) == Weave(seps, tokens) + [c]
  {
    var n := |tokens|;
    var grown := tokens[..n - 1] + [tokens[n - 1] + [c]];
    assert grown[..n - 1] == tokens[..n - 1];
  }

  // A new token begins.
  lemma RunBegins(seps: seq<string>, tokens: seq<string>, c: char)
    requires AreRuns(seps, tokens) && (tokens != [] ==> seps[|tokens|] != "") && IsHex(c)
    ensures AreRuns(seps + [""], tokens + [[c]])
    ensures Weave(seps + [""], tokens + [[c]]) == Weave(seps, tokens) + [c]
  {
    assert (seps + [""])[..|tokens| + 1] == seps && (tokens + [[c]])[..|tokens|] == tokens;
  }

  // The text behind the last token goes on.
  lemma GapGrows(seps: seq<string>, tokens: seq<string>, c: char)
    requires AreRuns(seps, tokens) && !IsHex(c)
    ensures var n := |tokens|; var grown := seps[..n] + [seps[n] + [c]];
      AreRuns(grown, tokens) && Weave(grown, tokens) == Weave(seps, tokens) + [c]
  {
    var n := |tokens|;
    var grown := seps[..n] + [seps[n] + [c]];
    assert grown[..n] == seps[..n];
  }

  lemma UpperAllSnoc(s: string, c: char)
    ensures UpperAll(s + [c]) == UpperAll(s) + [Upper(c)]
  {
  }

  // One more character closes, lengthens or opens a token.
  lemma TokensSnoc(s: string, c: char)
    ensures !IsHex(c) ==> Tokens(s + [c]) == Tokens(s) && Scan(s + [c]).current == ""
    ensures IsHex(c) ==> Scan(s + [c]).current != ""
    ensures IsHex(c) && Scan(s).current != "" ==>
      var tokens := Tokens(s); var n := |tokens|;
      n > 0 && Tokens(s + [c]) == tokens[..n - 1] + [tokens[n - 1] + [Upper(c)]]
    ensures IsHex(c) && Scan(s).current == "" ==> Tokens(s + [c]) == Tokens(s) + [[Upper(c)]]
  {
    assert (s + [c])[..|s|] == s;
    assert "" + [Upper(c)] == [Upper(c)];
    assert (Scan(s).tokens + [Scan(s).current])[..|Scan(s).tokens|] == Scan(s).tokens;
  }

  /** The tokens are the maximal runs of hex digits, in upper case and in order: put back between texts without
      hex digits, none empty except at the ends, they spell the upper-cased line. */
  lemma {:induction false} TokensAreMaximalRuns(s: string) returns (seps: seq<string>)
    ensures AreRuns(seps, Tokens(s)) && Weave(seps, Tokens(s)) == UpperAll(s)
    ensures Tokens(s) != [] ==> (seps[|Tokens(s)|] == "" <==> Scan(s).current != "")
  {
    if s == "" {
      seps := [""];
    } else {
      var s', c := s[..|s| - 1], s[|s| - 1];
      seps := TokensAreMaximalRuns(s');
      assert s == s' + [c];
      UpperAllSnoc(s', c);
      TokensSnoc(s', c);
      var tokens := Tokens(s');
      var n := |tokens|;
      if !IsHex(c) {
        GapGrows(seps, tokens, Upper(c));
        seps := seps[..n] + [seps[n] + [Upper(c)]];
      } else if Scan(s').current != "" {
        RunGrows(seps, tokens, Upper(c));
      } else {
        RunBegins(seps, tokens, Upper(c));
        seps := seps + [""];
      }
    }
  }

  // "%X" read back from a token of hex digits.
  function Value(s: string): nat {
    if s == "" then 0
    else 16 * Value(s[..|s| - 1]) + if IsHex(s[|s| - 1]) then HexVal(s[|s| - 1]) else 0
  }

  const EOL: set<char> := {'\r', '\n'}

  const STATUSES: seq<string> :=
    ["OK", "NO DATA", "ERROR", "STOPPED", "UNABLE TO CONNECT", "BUS ERROR", "BUFFER FULL", "CAN ERROR",
     "BUS INIT", "SEARCHING"]

  // Where the CAN id stands: after a monitor-mode type prefix 0x600..0x6FF, or first.
  function IdPosition(tokens: seq<string>): Option<nat> {
    if |tokens| != 10 then Some(0)
    else if 0x600 <= Value(tokens[0]) <= 0x6FF then Some(1)
    else None
  }

  predicate IsByteToken(t: string) {
    |t| == 2 && IsHex(t[0]) && IsHex(t[1])
  }

  function ByteOf(t: string): byte
    requires IsByteToken(t)
  {
    16 * HexVal(t[0]) + HexVal(t[1])
  }

  predicate AllByteTokens(tokens: seq<string>) {
    forall k :: 0 <= k < |tokens| ==> IsByteToken(tokens[k])
  }

  function BytesOf(tokens: seq<string>): seq<byte>
    requires AllByteTokens(tokens)
  {
    if tokens == [] then [] else BytesOf(tokens[..|tokens| - 1]) + [ByteOf(tokens[|tokens| - 1])]
  }

  function ParseTokens(tokens: seq<string>): Option<CanFrame> {
    if |tokens| < 9 || |tokens| > 10 then None
    else match IdPosition(tokens)
      case None => None
      case Some(at) =>
        if |tokens| - at - 1 != 8 || !AllByteTokens(tokens[at + 1..]) then None
        else Some(CanFrame(Value(tokens[at]) % 0x1_0000, BytesOf(tokens[at + 1..])))
  }

  function ParseCanFrame(line: string): Option<CanFrame> {
    var cleaned := TrimRight(line, EOL);
    if line == "" || cleaned == ">" || UpperAll(cleaned) in STATUSES || !Lacks(cleaned, ':') then None
    else ParseTokens(Tokens(cleaned))
  }

  /** The parser as the host runs it, leaving at the first token that is not a byte. */
  method ParseCanFrameLine(line: string) returns (r: Option<CanFrame>)
    ensures r == ParseCanFrame(line)
  {
    if line == "" {
      return None;
    }
    var cleaned := line;
    while cleaned != "" && cleaned[|cleaned| - 1] in EOL
      invariant TrimRight(cleaned, EOL) == TrimRight(line, EOL)
      decreases |cleaned|
    {
      cleaned := cleaned[..|cleaned| - 1];
    }
    if cleaned == ">" || UpperAll(cleaned) in STATUSES || !Lacks(cleaned, ':') {
      return None;
    }
    var tokens := TokenizeHex(cleaned);
    if |tokens| < 9 || |tokens| > 10 {
      return None;
    }
    var at := IdPosition(tokens);
    if at == None || |tokens| - at.value - 1 != 8 {
      return None;
    }
    var data := DecodeBytes(tokens[at.value + 1..]);
    return if data == None then None else Some(CanFrame(Value(tokens[at.value]) % 0x1_0000, data.value));
  }

  method DecodeBytes(tokens: seq<string>) returns (r: Option<seq<byte>>)
    ensures r == if AllByteTokens(tokens) then Some(BytesOf(tokens)) else None
  {
    var data: seq<byte> := [];
    var i := 0;
    while i < |tokens|
      invariant 0 <= i <= |tokens|
      invariant AllByteTokens(tokens[..i]) && data == BytesOf(tokens[..i])
    {
      if !IsByteToken(tokens[i]) {
        return None;
      }
      assert tokens[..i + 1][..i] == tokens[..i];
      data := data + [ByteOf(tokens[i])];
      i := i + 1;
    }
    assert tokens[..i] == tokens;
    return Some(data);
  }

  // ======== session packing and unpacking ========

  function Pack(f: CanFrame): seq<byte> {
    var low: byte, high: byte := f.canId % 0x100, f.canId / 0x100;
    [low, high] + f.data
  }

  class BleSignalSource {
    var accumulatedFrames: map<uint16, seq<byte>>

    constructor ()
      ensures accumulatedFrames == map[]
    {
      accumulatedFrames := map[];
    }

    // The two id bytes arrive little-endian; anything shorter is ignored.
    method OnDataReceived(data: seq<byte>)
      modifies this
      ensures accumulatedFrames == Accumulate(old(accumulatedFrames), data)
    {
      if |data| < 2 {
        return;
      }
      var canId: uint16 := data[0] as int + 0x100 * data[1] as int;
      accumulatedFrames := accumulatedFrames[canId := data[2..]];
    }
  }

  function Accumulate(m: map<uint16, seq<byte>>, data: seq<byte>): map<uint16, seq<byte>> {
    if |data| < 2 then m
    else
      var canId: uint16 := data[0] as int + 0x100 * data[1] as int;
      m[canId := data[2..]]
  }

  // What the host's session does with one received line.
  function Deliver(m: map<uint16, seq<byte>>, line: string): map<uint16, seq<byte>> {
    match ParseCanFrame(line)
    case Some(f) => if |f.data| == 8 then Accumulate(m, Pack(f)) else m
    case None => m
  }

  // ======== round trip ========

  lemma {:induction false} ScanHex(s: string, h: string)
    requires AllHex(h) && forall k :: 0 <= k < |h| ==> Upper(h[k]) == h[k]
    ensures Scan(s + h) == Scanned(Scan(s).tokens, Scan(s).current + h)
  {
    if h == "" {
      assert s + h == s;
    } else {
      var h', c := h[..|h| - 1], h[|h| - 1];
      assert (s + h)[..|s + h| - 1] == s + h';
      ScanHex(s, h');
      assert Scan(s).current + h' + [c] == Scan(s).current + h;
    }
  }

  lemma {:induction false} DigitsUpper(n: nat, k: nat)
    requires k < |Digits(n)|
    ensures Upper(Digits(n)[k]) == Digits(n)[k]
  {
    if n >= 16 && k < |Digits(n / 16)| {
      DigitsUpper(n / 16, k);
    }
  }

  lemma Hex3Upper(n: nat, k: nat)
    requires k < |Hex3(n)|
    ensures Upper(Hex3(n)[k]) == Hex3(n)[k]
  {
    var pad := |Hex3(n)| - |Digits(n)|;
    if k >= pad {
      DigitsUpper(n, k - pad);
    }
  }

  lemma {:induction false} DigitsValue(n: nat)
    ensures Value(Digits(n)) == n
  {
    var s := Digits(n);
    if n < 16 {
      assert s[..0] == "";
    } else {
      DigitsValue(n / 16);
      assert s[..|s| - 1] == Digits(n / 16);
    }
  }

  lemma {:induction false} LeadingZero(s: string)
    ensures Value("0" + s) == Value(s)
  {
    if s == "" {
      assert "0" + s == "0" && "0"[..0] == "";
    } else {
      assert ("0" + s)[..|s|] == "0" + s[..|s| - 1];
      LeadingZero(s[..|s| - 1]);
    }
  }

  lemma Hex3Value(n: nat)
    ensures Value(Hex3(n)) == n
  {
    DigitsValue(n);
    var s := Digits(n);
    LeadingZero(s);
    LeadingZero("0" + s);
    assert "0" + ("0" + s) == "00" + s;
  }

  // The tokens of an encoded body: the id, then the data bytes.
  function ByteTokens(data: seq<byte>, i: nat): (r: seq<string>)
    requires i <= |data|
    ensures |r| == i
  {
    if i == 0 then [] else ByteTokens(data, i - 1) + [Hex2(data[i - 1])]
  }

  // Appending a space closes the token in progress; two digits after it open the next one.
  lemma ScanByte(before: string, h: string)
    requires Scan(before).current != ""
    requires h != "" && AllHex(h) && forall k :: 0 <= k < |h| ==> Upper(h[k]) == h[k]
    ensures Scan(before + (" " + h)) == Scanned(Tokens(before), h)
  {
    var s := before + " ";
    assert s[..|s| - 1] == before && s[|s| - 1] == ' ';
    assert Scan(s) == Scanned(Tokens(before), "");
    ScanHex(s, h);
    assert s + h == before + (" " + h);
    assert "" + h == h;
  }

  lemma ScanMore(body: string, b: byte, tokens: seq<string>)
    requires Tokens(body) == tokens && Scan(body).current != ""
    ensures Tokens(body + (" " + Hex2(b))) == tokens + [Hex2(b)] && Scan(body + (" " + Hex2(b))).current != ""
  {
    ScanByte(body, Hex2(b));
  }

  lemma {:induction false} ScanBody(id: uint32, data: seq<byte>, i: nat)
    requires i <= |data|
    ensures Tokens(Body(id, data, i)) == [Hex3(id)] + ByteTokens(data, i)
    ensures Scan(Body(id, data, i)).current != ""
  {
    if i == 0 {
      var h := Hex3(id);
      forall k | 0 <= k < |h|
        ensures Upper(h[k]) == h[k]
      {
        Hex3Upper(id, k);
      }
      ScanHex("", h);
      assert "" + h == h;
      assert Body(id, data, 0) == h;
    } else {
      ScanBody(id, data, i - 1);
      BodyNext(id, data, i - 1);
      ScanMore(Body(id, data, i - 1), data[i - 1], [Hex3(id)] + ByteTokens(data, i - 1));
      Assoc([Hex3(id)], ByteTokens(data, i - 1), [Hex2(data[i - 1])]);
    }
  }

  // Neither the label character nor a line terminator.
  predicate Plain(s: string) {
    forall k :: 0 <= k < |s| ==> s[k] != ':' && s[k] !in EOL
  }

  lemma BodyPlain(id: uint32, data: seq<byte>, i: nat)
    requires i <= |data|
    ensures Plain(Body(id, data, i))
  {
    var body := Body(id, data, i);
    forall k | 0 <= k < |body|
      ensures body[k] != ':' && body[k] !in EOL
    {
      BodyChars(id, data, i, k);
    }
  }

  lemma PlainPrefix(s: string, n: nat)
    requires Plain(s) && n <= |s|
    ensures Lacks(s[..n], ':') && TrimRight(s[..n], EOL) == s[..n]
  {
  }

  lemma BodyTrims(id: uint32, data: seq<byte>, i: nat)
    requires i <= |data|
    ensures Lacks(Body(id, data, i), ':')
    ensures TrimRight(Body(id, data, i), EOL) == Body(id, data, i)
    ensures TrimRight(Body(id, data, i) + "\r", EOL) == Body(id, data, i)
  {
    var body := Body(id, data, i);
    BodyPlain(id, data, i);
    assert (body + "\r")[..|body|] == body;
  }

  lemma StatusesAreShort(s: string)
    requires |s| > 17
    ensures s !in STATUSES
  {
  }

  lemma {:induction false} ByteTokensDecode(data: seq<byte>, i: nat)
    requires i <= |data|
    ensures AllByteTokens(ByteTokens(data, i)) && BytesOf(ByteTokens(data, i)) == data[..i]
  {
    if i > 0 {
      ByteTokensDecode(data, i - 1);
      BytesOfSnoc(ByteTokens(data, i - 1), Hex2(data[i - 1]));
      assert data[..i] == data[..i - 1] + [data[i - 1]];
    }
  }

  lemma BytesOfSnoc(tokens: seq<string>, t: string)
    requires AllByteTokens(tokens) && IsByteToken(t)
    ensures AllByteTokens(tokens + [t]) && BytesOf(tokens + [t]) == BytesOf(tokens) + [ByteOf(t)]
  {
    assert (tokens + [t])[..|tokens|] == tokens;
  }

  lemma NineTokens(id: string, bytes: seq<string>)
    requires |bytes| == 8 && AllByteTokens(bytes)
    ensures ParseTokens([id] + bytes) == Some(CanFrame(Value(id) % 0x1_0000, BytesOf(bytes)))
  {
    assert ([id] + bytes)[1..] == bytes;
  }

  // Parsing a body of eight bytes gives back the payload and the low 16 bits of the id.
  lemma FullBodyParses(id: uint32, data: seq<byte>)
    requires |data| == 8
    ensures ParseTokens(Tokens(Body(id, data, |data|))) == Some(CanFrame(id % 0x1_0000, data))
  {
    ScanBody(id, data, |data|);
    ByteTokensDecode(data, |data|);
    Hex3Value(id);
    NineTokens(Hex3(id), ByteTokens(data, |data|));
    assert data[..|data|] == data;
  }

  // A body cut inside its last byte does not parse.
  lemma CutBodyFails(before: string, h: string, tokens: seq<string>)
    requires Scan(before).current != "" && tokens == Tokens(before) && |tokens| == 8
    requires |h| == 2 && IsHex(h[0]) && Upper(h[0]) == h[0]
    ensures ParseTokens(Tokens(before + (" " + h[..1]))) == None
  {
    ScanByte(before, h[..1]);
    LoneDigit(tokens, h[..1]);
  }

  lemma CutByte(before: string, h: string)
    requires |h| == 2
    ensures var body := before + (" " + h); body[..|body| - 1] == before + (" " + h[..1])
  {
  }

  lemma LoneDigit(tokens: seq<string>, h: string)
    requires |tokens| == 8 && |h| == 1
    ensures ParseTokens(tokens + [h]) == None
  {
    var all := tokens + [h];
    assert all[1..][7] == h;
  }

  // A line without ':' is a status message or is decided by its tokens.
  lemma ParsedByTokens(line: string, cleaned: string)
    requires TrimRight(line, EOL) == cleaned && Lacks(cleaned, ':')
    ensures ParseCanFrame(line) != None ==> ParseCanFrame(line) == ParseTokens(Tokens(cleaned))
    ensures |cleaned| > 17 ==> ParseCanFrame(line) == ParseTokens(Tokens(cleaned))
  {
    if |cleaned| > 17 {
      StatusesAreShort(UpperAll(cleaned));
    }
  }

  // Fewer than eight bytes make fewer than nine tokens.
  lemma ShortFrame(id: uint32, dlc: byte, data: seq<byte>)
    requires |data| == 8 && dlc < 8
    ensures ParseCanFrame(Sent(id, dlc, data)) == None
  {
    var body := Body(id, data, dlc);
    IdWidth(id);
    BodyTrims(id, data, dlc);
    ScanBody(id, data, dlc);
    assert Sent(id, dlc, data) == body + "\r";
    ParsedByTokens(body + "\r", body);
  }

  lemma LongFrame(id: uint32, data: seq<byte>, line: string)
    requires |data| == 8
    requires line == Body(id, data, |data|) || line == Body(id, data, |data|) + "\r"
    ensures ParseCanFrame(line) == Some(CanFrame(id % 0x1_0000, data))
  {
    BodyTrims(id, data, |data|);
    ParsedByTokens(line, Body(id, data, |data|));
    FullBodyParses(id, data);
  }

  // An eight-digit id pushes the last digit out of the buffer.
  lemma TooLongLine(id: uint32, data: seq<byte>) returns (before: string, h: string)
    requires |data| == 8 && |Hex3(id)| == 8
    ensures before == Body(id, data, |data| - 1) && h == Hex2(data[|data| - 1])
    ensures Body(id, data, |data|)[..31] == before + (" " + h[..1])
  {
    before, h := Body(id, data, |data| - 1), Hex2(data[|data| - 1]);
    BodyNext(id, data, |data| - 1);
    CutByte(before, h);
  }

  lemma TooLongFrame(id: uint32, data: seq<byte>)
    requires |data| == 8 && |Hex3(id)| == 8
    ensures ParseCanFrame(Body(id, data, |data|)[..31]) == None
  {
    var line := Body(id, data, |data|)[..31];
    BodyPlain(id, data, |data|);
    PlainPrefix(Body(id, data, |data|), 31);
    var before, h := TooLongLine(id, data);
    ScanBody(id, data, |data| - 1);
    CutBodyFails(before, h, Tokens(before));
    ParsedByTokens(line, line);
  }

  /** For every 32-bit identifier, every DLC and every payload: the host decodes the line the device's buffer
      holds exactly when eight bytes were sent and the id has at most seven digits, and then it gets the
      payload and the low 16 bits of the id. */
  lemma EncodedFrameParses(id: uint32, dlc: byte, data: seq<byte>)
    requires |data| == 8
    ensures ParseCanFrame(Sent(id, dlc, data)) ==
      if dlc >= 8 && id < 0x1000_0000 then Some(CanFrame(id % 0x1_0000, data)) else None
  {
    if dlc < 8 {
      ShortFrame(id, dlc, data);
    } else {
      var body, line := Body(id, data, |data|), Line(id, dlc, data);
      IdWidth(id);
      if id < 0x1000_0000 {
        assert line[..|body|] == body;
        LongFrame(id, data, Sent(id, dlc, data));
      } else {
        assert Sent(id, dlc, data) == body[..31];
        TooLongFrame(id, data);
      }
    }
  }

  /** From one buffer to the accumulated frames: an 8-byte frame is kept under the low half of its id with its
      own bytes, so under its own id when that fits 16 bits, if the id has at most 28 bits; any other frame
      changes nothing. Several buffers on one wire are the subject of StreamRoundTrip. */
  lemma CanRoundTrip(m: map<uint16, seq<byte>>, id: uint32, dlc: byte, data: seq<byte>)
    requires |data| == 8
    ensures Deliver(m, Sent(id, dlc, data)) ==
      if dlc >= 8 && id < 0x1000_0000 then m[id % 0x1_0000 := data] else m
  {
    EncodedFrameParses(id, dlc, data);
    DeliverParsed(m, Sent(id, dlc, data), ParseCanFrame(Sent(id, dlc, data)));
  }

  // A parsed frame of eight bytes is accumulated under its id.
  lemma DeliverParsed(m: map<uint16, seq<byte>>, line: string, r: Option<CanFrame>)
    requires r == ParseCanFrame(line)
    ensures r == None ==> Deliver(m, line) == m
    ensures r.Some? && |r.value.data| == 8 ==> Deliver(m, line) == m[r.value.canId := r.value.data]
  {
    match r
    case Some(f) => PackUnpack(m, f);
    case None =>
  }

  lemma PackUnpack(m: map<uint16, seq<byte>>, f: CanFrame)
    ensures Accumulate(m, Pack(f)) == m[f.canId := f.data]
  {
    assert Pack(f)[2..] == f.data;
  }

  /** A line is complete, with its CR, exactly when id digits, data and terminators fit the buffer. */
  lemma LineCompleteExactly(id: uint32, dlc: byte, data: seq<byte>)
    requires |data| == 8
    ensures Sent(id, dlc, data) == Line(id, dlc, data) <==>
      |Hex3(id)| + 3 * Least(dlc, 8) + 2 <= BUFFER_SIZE
    ensures dlc >= 8 ==> (Sent(id, dlc, data) == Line(id, dlc, data) <==> id < 0x100_0000)
  {
    IdWidth(id);
  }

  // ======== a stream of frames ========

  datatype Frame = Frame(id: uint32, dlc: byte, data: seq<byte>)

  predicate AreFrames(fs: seq<Frame>) {
    forall i :: 0 <= i < |fs| ==> |fs[i].data| == 8
  }

  // The frame's line keeps its CR in the buffer.
  predicate Fits(f: Frame) {
    |Hex3(f.id)| + 3 * Least(f.dlc, 8) + 2 <= BUFFER_SIZE
  }

  // The buffers of successive frames, one after the other on the wire.
  function Stream(fs: seq<Frame>): string
    requires AreFrames(fs)
  {
    if fs == [] then "" else Sent(fs[0].id, fs[0].dlc, fs[0].data) + Stream(fs[1..])
  }

  // What is accumulated from frames that all arrive.
  function Keep(m: map<uint16, seq<byte>>, f: Frame): map<uint16, seq<byte>> {
    if f.dlc >= 8 then m[f.id % 0x1_0000 := f.data] else m
  }

  function KeepAll(m: map<uint16, seq<byte>>, fs: seq<Frame>): map<uint16, seq<byte>>
    decreases |fs|
  {
    if fs == [] then m else KeepAll(Keep(m, fs[0]), fs[1..])
  }

  function DeliverAll(m: map<uint16, seq<byte>>, lines: seq<string>): map<uint16, seq<byte>>
    decreases |lines|
  {
    if lines == [] then m else DeliverAll(Deliver(m, lines[0]), lines[1..])
  }

  function FittingFrames(fs: seq<Frame>): (n: nat)
    ensures n <= |fs|
  {
    if fs == [] then 0 else (if Fits(fs[0]) then 1 else 0) + FittingFrames(fs[1..])
  }

  const CR := '\r'

  // A line without its CR parses like the line.
  lemma BodyDelivers(m: map<uint16, seq<byte>>, f: Frame)
    requires |f.data| == 8
    ensures Deliver(m, Body(f.id, f.data, Least(f.dlc, 8))) == Keep(m, f)
  {
    var body := Body(f.id, f.data, Least(f.dlc, 8));
    if f.dlc >= 8 {
      LongFrame(f.id, f.data, body);
    } else {
      BodyTrims(f.id, f.data, f.dlc);
      ScanBody(f.id, f.data, f.dlc);
      ParsedByTokens(body, body);
    }
    DeliverParsed(m, body, ParseCanFrame(body));
  }

  // A fitting frame puts one whole line on the wire; any other frame puts a piece without CR there.
  lemma SentOf(f: Frame)
    requires |f.data| == 8
    ensures Fits(f) ==> Sent(f.id, f.dlc, f.data) == Body(f.id, f.data, Least(f.dlc, 8)) + [CR]
    ensures !Fits(f) ==> Lacks(Sent(f.id, f.dlc, f.data), CR)
  {
    var body := Body(f.id, f.data, Least(f.dlc, 8));
    IdWidth(f.id);
    LineCompleteExactly(f.id, f.dlc, f.data);
    if !Fits(f) {
      BodyPlain(f.id, f.data, Least(f.dlc, 8));
      assert Sent(f.id, f.dlc, f.data) == body[..BUFFER_SIZE - 1];
    }
  }

  // ---- frames that do not fit ----

  // The frames that arrive: those that fit, unless the one before did not and runs into them.
  function Survive(fs: seq<Frame>, glued: bool): (r: seq<Frame>)
    ensures |r| <= |fs|
  {
    if fs == [] then []
    else (if Fits(fs[0]) && !glued then [fs[0]] else []) + Survive(fs[1..], !Fits(fs[0]))
  }

  // What frames without CR leave on the wire: nine tokens or more, the first of them too large for a type
  // prefix and the last still open.
  ghost predicate Glued(g: string) {
    && Plain(g) && Scan(g).current != ""
    && |Tokens(g)| >= 9 && Value(Tokens(g)[0]) > 0x6FF
  }

  // Another body right behind an open token lengthens that token.
  lemma {:induction false} ScanGlued(g: string, id: uint32, data: seq<byte>, i: nat)
    requires Scan(g).current != "" && i <= |data|
    ensures Scan(g + Body(id, data, i)).current != ""
    ensures Tokens(g + Body(id, data, i)) == Scan(g).tokens + [Scan(g).current + Hex3(id)] + ByteTokens(data, i)
  {
    var tokens := Scan(g).tokens + [Scan(g).current + Hex3(id)];
    if i == 0 {
      var h := Hex3(id);
      forall k | 0 <= k < |h|
        ensures Upper(h[k]) == h[k]
      {
        Hex3Upper(id, k);
      }
      ScanHex(g, h);
      assert Body(id, data, 0) == h;
      assert tokens + [] == tokens;
    } else {
      ScanGlued(g, id, data, i - 1);
      BodyNext(id, data, i - 1);
      var h := " " + Hex2(data[i - 1]);
      Assoc(g, Body(id, data, i - 1), h);
      ScanMore(g + Body(id, data, i - 1), data[i - 1], tokens + ByteTokens(data, i - 1));
      Assoc(tokens, ByteTokens(data, i - 1), [Hex2(data[i - 1])]);
    }
  }

  lemma TooManyOrBad(tokens: seq<string>)
    requires |tokens| >= 9 && Value(tokens[0]) > 0x6FF && (|tokens| == 9 ==> !IsByteToken(tokens[8]))
    ensures ParseTokens(tokens) == None
  {
    if |tokens| == 9 {
      assert tokens[1..][7] == tokens[8];
    }
  }

  // A body behind a glued piece is lost with it.
  lemma GluedFails(g: string, id: uint32, data: seq<byte>, i: nat)
    requires Glued(g) && i <= |data|
    ensures Plain(g + Body(id, data, i)) && ParseCanFrame(g + Body(id, data, i)) == None
  {
    var piece := g + Body(id, data, i);
    BodyPlain(id, data, i);
    ScanGlued(g, id, data, i);
    TooManyOrBad(Tokens(piece));
    ParsedByTokens(piece, piece);
  }

  // What a frame without CR leaves: the body without its last byte, and one or two digits of that byte.
  lemma UnfitSent(f: Frame) returns (h: string)
    requires |f.data| == 8 && !Fits(f)
    ensures Sent(f.id, f.dlc, f.data) == Body(f.id, f.data, |f.data| - 1) + (" " + h)
    ensures h != "" && AllHex(h) && forall k :: 0 <= k < |h| ==> Upper(h[k]) == h[k]
    ensures f.id >= 0x100_0000
  {
    IdWidth(f.id);
    LineCompleteExactly(f.id, f.dlc, f.data);
    var body := Body(f.id, f.data, |f.data|);
    assert Sent(f.id, f.dlc, f.data) == body[..BUFFER_SIZE - 1];
    if |Hex3(f.id)| == 8 {
      var before, last := TooLongLine(f.id, f.data);
      h := last[..1];
    } else {
      BodyNext(f.id, f.data, |f.data| - 1);
      h := Hex2(f.data[|f.data| - 1]);
      assert body[..BUFFER_SIZE - 1] == body;
    }
  }

  lemma TailPlain(a: string, h: string)
    requires Plain(a) && AllHex(h)
    ensures Plain(a + (" " + h))
  {
  }

  lemma FirstUnfit(f: Frame)
    requires |f.data| == 8 && !Fits(f)
    ensures Glued(Sent(f.id, f.dlc, f.data))
  {
    var h := UnfitSent(f);
    var before := Body(f.id, f.data, |f.data| - 1);
    BodyPlain(f.id, f.data, |f.data| - 1);
    TailPlain(before, h);
    ScanBody(f.id, f.data, |f.data| - 1);
    ScanByte(before, h);
    Hex3Value(f.id);
  }

  lemma NextUnfit(g: string, f: Frame)
    requires Glued(g) && |f.data| == 8 && !Fits(f)
    ensures Glued(g + Sent(f.id, f.dlc, f.data))
  {
    var h := UnfitSent(f);
    var before := Body(f.id, f.data, |f.data| - 1);
    BodyPlain(f.id, f.data, |f.data| - 1);
    TailPlain(g + before, h);
    Assoc(g, before, " " + h);
    ScanGlued(g, f.id, f.data, |f.data| - 1);
    ScanByte(g + before, h);
  }

  // One whole line behind what is on the wire already.
  lemma LineDelivers(m: map<uint16, seq<byte>>, g: string, f: Frame)
    requires |f.data| == 8 && (g == "" || Glued(g))
    ensures var piece := g + Body(f.id, f.data, Least(f.dlc, 8));
      Lacks(piece, CR) && Deliver(m, piece) == if g == "" then Keep(m, f) else m
  {
    var i := Least(f.dlc, 8);
    var piece := g + Body(f.id, f.data, i);
    if g == "" {
      assert piece == Body(f.id, f.data, i);
      BodyPlain(f.id, f.data, i);
      BodyDelivers(m, f);
    } else {
      GluedFails(g, f.id, f.data, i);
      DeliverParsed(m, piece, None);
    }
  }

  lemma LineStep(m: map<uint16, seq<byte>>, g: string, f: Frame, later: string)
    requires |f.data| == 8 && Fits(f) && (g == "" || Glued(g))
    ensures var wire := g + (Sent(f.id, f.dlc, f.data) + later);
      && DeliverAll(m, Pieces(wire, CR)) == DeliverAll(if g == "" then Keep(m, f) else m, Pieces(later, CR))
      && Rest(wire, CR) == Rest(later, CR)
  {
    var body := Body(f.id, f.data, Least(f.dlc, 8));
    SentOf(f);
    LineDelivers(m, g, f);
    Assoc(g, body + [CR], later);
    Assoc(g, body, [CR]);
    SplitFirst(g + body, CR, later);
    assert ([g + body] + Pieces(later, CR))[1..] == Pieces(later, CR);
  }

  lemma UnfitStep(g: string, f: Frame)
    requires |f.data| == 8 && !Fits(f) && (g == "" || Glued(g))
    ensures Glued(g + Sent(f.id, f.dlc, f.data)) && g + Sent(f.id, f.dlc, f.data) != ""
  {
    if g == "" {
      FirstUnfit(f);
      assert g + Sent(f.id, f.dlc, f.data) == Sent(f.id, f.dlc, f.data);
    } else {
      NextUnfit(g, f);
    }
  }

  lemma KeepFirst(m: map<uint16, seq<byte>>, f: Frame, fs: seq<Frame>)
    ensures KeepAll(m, [f] + fs) == KeepAll(Keep(m, f), fs)
  {
    assert ([f] + fs)[1..] == fs;
  }

  lemma SurviveStep(m: map<uint16, seq<byte>>, fs: seq<Frame>, glued: bool)
    requires fs != []
    ensures KeepAll(m, Survive(fs, glued)) ==
      KeepAll(if Fits(fs[0]) && !glued then Keep(m, fs[0]) else m, Survive(fs[1..], !Fits(fs[0])))
  {
    var later := Survive(fs[1..], !Fits(fs[0]));
    KeepFirst(m, fs[0], later);
    assert [] + later == later;
  }

  // The general case, behind a piece g without CR.
  lemma {:induction false} Wire(m: map<uint16, seq<byte>>, g: string, fs: seq<Frame>)
    requires AreFrames(fs) && (g == "" || Glued(g))
    ensures DeliverAll(m, Pieces(g + Stream(fs), CR)) == KeepAll(m, Survive(fs, g != ""))
    decreases |fs|
  {
    if fs == [] {
      assert g + "" == g;
      SplitNone(g, CR);
    } else {
      var f, later := fs[0], Stream(fs[1..]);
      SurviveStep(m, fs, g != "");
      if Fits(f) {
        LineStep(m, g, f, later);
        assert "" + later == later;
        Wire(if g == "" then Keep(m, f) else m, "", fs[1..]);
      } else {
        UnfitStep(g, f);
        Assoc(g, Sent(f.id, f.dlc, f.data), later);
        Wire(m, g + Sent(f.id, f.dlc, f.data), fs[1..]);
      }
    }
  }

  // Whether the wire ends with a whole line depends on the last frame alone.
  lemma {:induction false} WireEnds(g: string, fs: seq<Frame>)
    requires AreFrames(fs) && (g == "" || Glued(g))
    ensures Rest(g + Stream(fs), CR) == "" <==> if fs == [] then g == "" else Fits(fs[|fs| - 1])
    decreases |fs|
  {
    if fs == [] {
      assert g + "" == g;
      SplitNone(g, CR);
    } else {
      var f, later := fs[0], Stream(fs[1..]);
      assert |fs| > 1 ==> fs[1..][|fs| - 2] == fs[|fs| - 1];
      if Fits(f) {
        LineStep(map[], g, f, later);
        assert "" + later == later;
        WireEnds("", fs[1..]);
      } else {
        UnfitStep(g, f);
        Assoc(g, Sent(f.id, f.dlc, f.data), later);
        WireEnds(g + Sent(f.id, f.dlc, f.data), fs[1..]);
      }
    }
  }

  /** For any frames at all: splitting the wire at CR and delivering the pieces accumulates exactly the frames
      that fit the buffer and do not follow one that does not; the wire ends with a whole line exactly when the
      last frame fits. */
  lemma StreamRoundTrip(m: map<uint16, seq<byte>>, fs: seq<Frame>)
    requires AreFrames(fs)
    ensures DeliverAll(m, Pieces(Stream(fs), CR)) == KeepAll(m, Survive(fs, false))
    ensures Rest(Stream(fs), CR) == "" <==> fs == [] || Fits(fs[|fs| - 1])
  {
    assert "" + Stream(fs) == Stream(fs);
    Wire(m, "", fs);
    WireEnds("", fs);
  }

  /** Every frame survives exactly when every frame fits; then StreamRoundTrip accumulates them all. */
  lemma {:induction false} AllSurvive(fs: seq<Frame>)
    ensures |Survive(fs, false)| == |fs| <==> FittingFrames(fs) == |fs|
    ensures FittingFrames(fs) == |fs| ==> Survive(fs, false) == fs
    decreases |fs|
  {
    if fs != [] && Fits(fs[0]) {
      AllSurvive(fs[1..]);
    }
  }

  lemma SmallIdsFit(f: Frame)
    requires f.id < 0x100_0000
    ensures Fits(f)
  {
    IdWidth(f.id);
  }

  lemma PiecesBehind(head: string, later: string)
    requires Lacks(head, CR)
    ensures |Pieces(head + later, CR)| == |Pieces(later, CR)|
  {
    if Lacks(later, CR) {
      SplitNone(later, CR);
      SplitNone(head + later, CR);
    } else {
      var first, rest := FirstCut(later, CR);
      SplitFirst(first, CR, rest);
      Assoc(head, first, [CR]);
      Assoc(head, first + [CR], rest);
      SplitFirst(head + first, CR, rest);
    }
  }

  lemma {:induction false} AllFit(fs: seq<Frame>)
    ensures FittingFrames(fs) == |fs| <==> forall i :: 0 <= i < |fs| ==> Fits(fs[i])
    decreases |fs|
  {
    if fs != [] {
      AllFit(fs[1..]);
      assert forall i :: 0 < i < |fs| ==> fs[i] == fs[1..][i - 1];
    }
  }

  /** On the wire there are as many lines as fitting frames, so, by AllFit, each frame has a line of its own
      exactly when every line fits; otherwise a frame without CR runs into the next one. */
  lemma {:induction false} LinesOnTheWire(fs: seq<Frame>)
    requires AreFrames(fs)
    ensures |Pieces(Stream(fs), CR)| == FittingFrames(fs)
    decreases |fs|
  {
    if fs == [] {
      SplitNone<char>("", CR);
    } else {
      var f, later := fs[0], Stream(fs[1..]);
      LinesOnTheWire(fs[1..]);
      SentOf(f);
      if Fits(f) {
        BodyPlain(f.id, f.data, Least(f.dlc, 8));
        SplitFirst(Body(f.id, f.data, Least(f.dlc, 8)), CR, later);
      } else {
        PiecesBehind(Sent(f.id, f.dlc, f.data), later);
      }
    }
  }

  // ======== what a line says, by its tokens ========

  // Line terminators at the end change no token.
  lemma {:induction false} TrimKeepsTokens(s: string)
    ensures Tokens(TrimRight(s, EOL)) == Tokens(s)
    ensures Lacks(TrimRight(s, EOL), ':') <==> Lacks(s, ':')
  {
    if s != "" && s[|s| - 1] in EOL {
      var init, c := s[..|s| - 1], s[|s| - 1];
      assert s == init + [c];
      TrimKeepsTokens(init);
      TokensSnoc(init, c);
      assert forall k :: 0 <= k < |init| ==> s[k] == init[k];
      assert c != ':';
    }
  }

  // Runs need room: their characters, and one between two.
  lemma {:induction false} RunsNeedRoom(seps: seq<string>, tokens: seq<string>)
    requires AreRuns(seps, tokens) && tokens != []
    ensures |Weave(seps, tokens)| >= 2 * |tokens| - 1 + |seps[|tokens|]|
    ensures (forall k :: 0 < k < |tokens| ==> |tokens[k]| == 2) ==>
      |Weave(seps, tokens)| >= 3 * |tokens| - 2 + |seps[|tokens|]|
  {
    var n := |tokens|;
    if n > 1 {
      var before, less := seps[..n], tokens[..n - 1];
      assert AreRuns(before, less);
      RunsNeedRoom(before, less);
      assert tokens[n - 1] != "" && before[n - 1] == seps[n - 1] != "";
    }
  }

  lemma FramesAreLong(s: string)
    requires |Tokens(s)| == 10 || (|Tokens(s)| == 9 && forall k :: 0 < k < 9 ==> |Tokens(s)[k]| == 2)
    ensures |s| > 17
  {
    var seps := TokensAreMaximalRuns(s);
    RunsNeedRoom(seps, Tokens(s));
  }

  // The tokens are the id and eight two-digit bytes, behind a monitor-mode type from 600 to 6FF if there are ten.
  ghost predicate Spells(t: seq<string>, f: CanFrame) {
    exists at: nat :: at <= 1 && |t| == at + 9 && SpellsAt(t, at, f)
  }

  ghost predicate SpellsAt(t: seq<string>, at: nat, f: CanFrame)
    requires |t| == at + 9
  {
    && (at == 1 ==> 0x600 <= Value(t[0]) <= 0x6FF)
    && f.canId as int == Value(t[at]) % 0x1_0000
    && |f.data| == 8
    && forall k :: 0 <= k < 8 ==> SpellsByte(t[at + 1 + k], f.data[k])
  }

  predicate SpellsByte(t: string, b: byte) {
    |t| == 2 && AllHex(t) && Value(t) == b as int
  }

  lemma TwoDigits(t: string)
    requires |t| == 2 && AllHex(t)
    ensures Value(t) == 16 * HexVal(t[0]) + HexVal(t[1])
  {
    var first := t[..1];
    assert first[..0] == "" && Value(first) == HexVal(t[0]);
    assert t[..|t| - 1] == first;
  }

  lemma {:induction false} BytesOfAt(tokens: seq<string>, k: nat)
    requires AllByteTokens(tokens) && k < |tokens|
    ensures |BytesOf(tokens)| == |tokens| && BytesOf(tokens)[k] == ByteOf(tokens[k])
  {
    var n := |tokens| - 1;
    if k < n {
      BytesOfAt(tokens[..n], k);
    } else if n > 0 {
      BytesOfAt(tokens[..n], n - 1);
    }
  }

  lemma BytesSpelled(tokens: seq<string>, data: seq<byte>)
    requires |tokens| == |data| == 8
    ensures AllByteTokens(tokens) && data == BytesOf(tokens)
       <==> forall k :: 0 <= k < 8 ==> SpellsByte(tokens[k], data[k])
  {
    forall k | 0 <= k < 8
      ensures SpellsByte(tokens[k], data[k]) <==> IsByteToken(tokens[k]) && ByteOf(tokens[k]) == data[k]
    {
      if |tokens[k]| == 2 && AllHex(tokens[k]) {
        TwoDigits(tokens[k]);
      }
    }
    if AllByteTokens(tokens) {
      forall k | 0 <= k < 8
        ensures |BytesOf(tokens)| == 8 && BytesOf(tokens)[k] == ByteOf(tokens[k])
      {
        BytesOfAt(tokens, k);
      }
    }
  }

  lemma ParsedAt(t: seq<string>, at: nat, f: CanFrame)
    requires at <= 1 && |t| == at + 9 && (at == 1 ==> 0x600 <= Value(t[0]) <= 0x6FF)
    ensures ParseTokens(t) == Some(f) <==> SpellsAt(t, at, f)
  {
    var bytes := t[at + 1..];
    if |f.data| == 8 {
      BytesSpelled(bytes, f.data);
    }
    if AllByteTokens(bytes) {
      BytesOfAt(bytes, 0);
    }
    assert forall k :: 0 <= k < 8 ==> bytes[k] == t[at + 1 + k];
  }

  lemma ParsedTokens(t: seq<string>, f: CanFrame)
    ensures ParseTokens(t) == Some(f) <==> Spells(t, f)
  {
    if |t| == 9 {
      ParsedAt(t, 0, f);
      assert Spells(t, f) <==> SpellsAt(t, 0, f);
    } else if |t| == 10 && 0x600 <= Value(t[0]) <= 0x6FF {
      ParsedAt(t, 1, f);
      assert Spells(t, f) <==> SpellsAt(t, 1, f);
    }
  }

  /** The parser, exactly, on every line: it yields a frame if and only if the line has no ':' and its tokens spell
      that frame; the status messages it tests for by name never do. */
  lemma ParsedExactly(line: string, f: CanFrame)
    ensures ParseCanFrame(line) == Some(f) <==> Lacks(line, ':') && Spells(Tokens(line), f)
  {
    var cleaned := TrimRight(line, EOL);
    TrimKeepsTokens(line);
    ParsedTokens(Tokens(line), f);
    if Lacks(line, ':') && Spells(Tokens(line), f) {
      SpelledIsLong(cleaned, f);
      StatusesAreShort(UpperAll(cleaned));
    }
  }

  lemma SpelledIsLong(s: string, f: CanFrame)
    requires Spells(Tokens(s), f)
    ensures |s| > 17
  {
    var t := Tokens(s);
    if |t| == 9 {
      assert SpellsAt(t, 0, f);
      forall k | 0 < k < 9
        ensures |t[k]| == 2
      {
        assert SpellsByte(t[0 + 1 + (k - 1)], f.data[k - 1]);
      }
    }
    FramesAreLong(s);
  }

  // ======== the formats themselves ========

  /** An id is written with at least three digits and never more than it needs. */
  lemma Hex3Exactly(n: nat)
    ensures |Hex3(n)| == (if n < 0x1000 then 3 else |Digits(n)|) && Value(Hex3(n)) == n
    ensures n >= 0x1000 ==> Digits(n)[0] != '0'
  {
    Hex3Value(n);
    DigitCount(n, 3);
    assert Pow16(3) == 0x1000;
    if n >= 0x1000 {
      NoLeadingZero(n);
    }
  }

  lemma {:induction false} NoLeadingZero(n: nat)
    requires n > 0
    ensures Digits(n)[0] != '0'
  {
    if n >= 16 {
      NoLeadingZero(n / 16);
    }
  }

  /** Each data byte is a space and two digits. */
  lemma {:induction false} DataTextExactly(data: seq<byte>, i: nat, k: nat)
    requires k < i <= |data|
    ensures DataText(data, i)[3 * k..3 * k + 3] == " " + Hex2(data[k])
  {
    if k < i - 1 {
      DataTextExactly(data, i - 1, k);
      assert DataText(data, i)[3 * k..3 * k + 3] == DataText(data, i - 1)[3 * k..3 * k + 3];
    }
  }

  /** On the way to the signal source an id travels least significant byte first. */
  lemma IdIsLittleEndian(m: map<uint16, seq<byte>>, f: CanFrame, low: byte, high: byte, data: seq<byte>)
    ensures Pack(f)[0] as int + 0x100 * Pack(f)[1] as int == f.canId as int && Pack(f)[2..] == f.data
    ensures var id: uint16 := low as int + 0x100 * high as int;
      Accumulate(m, [low, high] + data) == m[id := data]
  {
    assert ([low, high] + data)[2..] == data;
  }
}
