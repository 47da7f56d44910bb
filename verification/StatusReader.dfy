/** The host's side of a serial console: waiting for one [STATE] heartbeat line, and hiding such lines from the
    search for a command's acknowledgement. */
module StatusReader {
  import opened Text
  import opened Wrappers

  const MARKER := "[STATE]"

  predicate NoEol(s: string) {
    forall i :: 0 <= i < |s| ==> !IsEol(s[i])
  }

  // The least index at or after from that holds a terminator, or |s|.
  function EolFrom(s: string, from: nat): (r: nat)
    requires from <= |s|
    ensures from <= r <= |s|
    ensures forall i :: from <= i < r ==> !IsEol(s[i])
    ensures r < |s| ==> IsEol(s[r])
    decreases |s| - from
  {
    if from == |s| || IsEol(s[from]) then from else EolFrom(s, from + 1)
  }

  // ======== polling ========

  // What one poll of the port brings.
  datatype Poll = SelectFailed | ReadFailed | PeerClosed | Idle | Data(bytes: string)

  predicate Stops(p: Poll) {
    p.SelectFailed? || p.ReadFailed? || p.PeerClosed?
  }

  // All bytes read before polling stops, however they were cut into reads.
  function Received(polls: seq<Poll>): string {
    if polls == [] || Stops(polls[0]) then ""
    else (if polls[0].Data? then polls[0].bytes else "") + Received(polls[1..])
  }

  // The first complete heartbeat in a byte stream: from the first marker to the next terminator.
  function Snapshot(s: string): Option<string> {
    var m := Find(s, MARKER);
    if m == -1 then None
    else
      var t := EolFrom(s, m);
      if t == |s| then None else Some(s[m..t])
  }

  // Once a heartbeat is complete, later bytes cannot change it.
  lemma SnapshotStable(a: string, b: string)
    requires Snapshot(a).Some?
    ensures Snapshot(a + b) == Snapshot(a)
  {
    var m := Find(a, MARKER);
    var s := a + b;
    assert forall i :: 0 <= i < |a| ==> s[i] == a[i];
    OccursInPrefix(a, b, m);
    var m' := Find(s, MARKER);
    assert m' <= m;
    OccursInPrefix(a, b, m');
    var t := EolFrom(a, m);
    assert EolFrom(s, m) == t;
    assert s[m..t] == a[m..t];
  }

  lemma OccursInPrefix(a: string, b: string, i: nat)
    requires i + |MARKER| <= |a|
    ensures OccursAt(a + b, MARKER, i) <==> OccursAt(a, MARKER, i)
  {
    assert (a + b)[i..i + |MARKER|] == a[i..i + |MARKER|];
  }

  /** The status command: it prints the first complete heartbeat of the received stream, whatever the reads
      were, and otherwise holds every byte received for its diagnostic. */
  method RunStatus(polls: seq<Poll>) returns (printed: Option<string>, reply: string)
    ensures printed == Snapshot(Received(polls))
    ensures printed == None ==> reply == Received(polls)
  {
    reply := "";
    var k := 0;
    assert polls[0..] == polls && reply + Received(polls) == Received(polls);
    while k < |polls|
      invariant 0 <= k <= |polls|
      invariant reply + Received(polls[k..]) == Received(polls)
      invariant Snapshot(reply) == None
    {
      var p := polls[k];
      var rest := polls[k..];
      assert rest[1..] == polls[k + 1..];
      if Stops(p) {
        assert reply + "" == reply;
        return None, reply;
      }
      if p.Data? {
        Assoc(reply, p.bytes, Received(polls[k + 1..]));
        reply := reply + p.bytes;
      } else {
        assert "" + Received(polls[k + 1..]) == Received(polls[k + 1..]);
      }
      printed := Snapshot(reply);
      if printed != None {
        SnapshotStable(reply, Received(polls[k + 1..]));
        return printed, reply;
      }
      k := k + 1;
    }
    assert reply + "" == reply;
    printed := None;
  }

  // A complete heartbeat at the end of a stream.
  lemma HeartbeatAt(a: string, m: nat, body: string, eol: char)
    requires Find(a, MARKER) == m && m + |MARKER| == |a| && NoEol(body) && IsEol(eol)
    ensures Snapshot(a + (body + [eol])) == Some(MARKER + body)
  {
    var tail := body + [eol];
    var s, t := a + tail, |a| + |body|;
    forall i: nat | i <= m
      ensures OccursAt(s, MARKER, i) <==> OccursAt(a, MARKER, i)
    {
      OccursInPrefix(a, tail, i);
    }
    assert Find(s, MARKER) == m;
    MarkerChars(s, m);
    assert forall i :: |a| <= i < t ==> s[i] == body[i - |a|];
    assert s[t] == eol && EolFrom(s, m) == t;
    assert s[m..t] == s[m..m + |MARKER|] + body;
  }

  /** What the printed line is: the heartbeat from its marker up to its terminator. */
  lemma SnapshotMeaning(before: string, body: string, eol: char, after: string)
    requires Find(before + MARKER, MARKER) == |before| && NoEol(body) && IsEol(eol)
    ensures Snapshot(before + MARKER + (body + [eol]) + after) == Some(MARKER + body)
  {
    HeartbeatAt(before + MARKER, |before|, body, eol);
    SnapshotStable(before + MARKER + (body + [eol]), after);
  }

  // The stream s holds its first heartbeat, with this text and terminator, behind before.
  ghost predicate FirstHeartbeat(s: string, before: string, body: string, eol: char, after: string) {
    && s == before + "[STATE]" + (body + [eol]) + after
    && Find(before + "[STATE]", "[STATE]") == |before|
    && (forall i :: 0 <= i < |body| ==> body[i] != '\r' && body[i] != '\n') && (eol == '\r' || eol == '\n')
  }

  lemma SnapshotCut(s: string, m: nat, t: nat) returns (before: string, body: string, after: string)
    requires Find(s, MARKER) == m && t == EolFrom(s, m) < |s|
    ensures FirstHeartbeat(s, before, body, s[t], after) && s[m..t] == MARKER + body
  {
    MarkerChars(s, m);
    before, body, after := s[..m], s[m + |MARKER|..t], s[t + 1..];
    var head := before + MARKER;
    var tail := s[m + |MARKER|..];
    assert s[m..m + |MARKER|] == MARKER;
    assert s == head + tail;
    forall i: nat | i <= m
      ensures OccursAt(head, MARKER, i) <==> OccursAt(s, MARKER, i)
    {
      OccursInPrefix(head, tail, i);
    }
    assert Find(head, MARKER) == m;
    assert tail == (body + [s[t]]) + after;
  }

  /** The printed line, exactly: some text is printed if and only if the stream holds a heartbeat that is closed by a
      terminator, and then it is the first one from its marker up to that terminator. */
  lemma SnapshotExactly(s: string, r: string)
    ensures Snapshot(s) == Some(r) <==>
      exists before, body, eol, after :: FirstHeartbeat(s, before, body, eol, after) && r == "[STATE]" + body
  {
    if Snapshot(s) == Some(r) {
      var m := Find(s, MARKER);
      var t := EolFrom(s, m);
      var before, body, after := SnapshotCut(s, m, t);
      assert FirstHeartbeat(s, before, body, s[t], after);
    }
    if before, body, eol, after :| FirstHeartbeat(s, before, body, eol, after) && r == "[STATE]" + body {
      HeartbeatIsPrinted(s, before, body, eol, after);
    }
  }

  lemma HeartbeatIsPrinted(s: string, before: string, body: string, eol: char, after: string)
    requires FirstHeartbeat(s, before, body, eol, after)
    ensures Snapshot(s) == Some(MARKER + body)
  {
    SnapshotMeaning(before, body, eol, after);
  }

  // ======== hiding heartbeats ========

  predicate IsCrLf(s: string, i: nat) {
    i + 1 < |s| && s[i] == '\r' && s[i + 1] == '\n'
  }

  // The length of the first complete line with its terminator, "\r\n" counting as one; 0 if none is complete.
  function LineLength(s: string): (n: nat)
    ensures n <= |s|
  {
    var t := EolFrom(s, 0);
    if t == |s| then 0
    else if IsCrLf(s, t) then t + 2
    else t + 1
  }

  lemma LineFacts(s: string, n: nat)
    requires n == LineLength(s)
    ensures n == 0 ==> NoEol(s)
    ensures n > 0 ==> IsEol(s[n - 1])
    ensures forall i :: 0 <= i < n - 2 ==> !IsEol(s[i])
    ensures n >= 2 && IsEol(s[n - 2]) ==> s[n - 2] == '\r' && s[n - 1] == '\n'
  {
  }

  // What is kept of the first complete line.
  function KeptLine(s: string): string {
    if StartsWith(s, MARKER) then "" else s[..LineLength(s)]
  }

  // Specification of the filter, one line at a time.
  function StripStateLines(s: string): string
    decreases |s|
  {
    var n := LineLength(s);
    if n == 0 then s else KeptLine(s) + StripStateLines(s[n..])
  }

  // One line filtered.
  lemma StripLine(s: string, n: nat)
    requires n == LineLength(s) > 0
    ensures StripStateLines(s) == KeptLine(s) + StripStateLines(s[n..])
  {
  }

  // Searching from a position is searching the rest.
  lemma {:induction false} EolOfRest(s: string, pos: nat, from: nat)
    requires pos <= from <= |s|
    ensures EolFrom(s, from) == pos + EolFrom(s[pos..], from - pos)
    decreases |s| - from
  {
    if from < |s| && !IsEol(s[from]) {
      EolOfRest(s, pos, from + 1);
    }
  }

  lemma LineBehind(kept: string, s: string, n: nat, rest: string)
    requires n == LineLength(s) > 0 && rest == s[n..]
    ensures kept + StripStateLines(s) == kept + KeptLine(s) + StripStateLines(rest)
  {
    StripLine(s, n);
    Assoc(kept, KeptLine(s), StripStateLines(rest));
  }

  // One line filtered at a position, the terminator ending at next.
  lemma PositionStep(kept: string, reply: string, pos: nat, term: nat, next: nat)
    requires pos <= term < next <= |reply| && term == EolFrom(reply, pos)
    requires next == term + if IsCrLf(reply, term) then 2 else 1
    ensures kept + StripStateLines(reply[pos..]) ==
      kept + (if OccursAt(reply, MARKER, pos) then "" else reply[pos..next]) + StripStateLines(reply[next..])
  {
    var rest, after := reply[pos..], reply[next..];
    NextLine(reply, pos, term, next, rest);
    LineBehind(kept, rest, next - pos, after);
  }

  /** The filter as the host runs it: a position walking over the buffer. */
  method StripByPosition(reply: string) returns (kept: string)
    ensures kept == StripStateLines(reply)
  {
    kept := "";
    var pos := 0;
    ghost var whole := StripStateLines(reply);
    assert reply[0..] == reply && kept + whole == whole;
    while pos < |reply|
      invariant 0 <= pos <= |reply|
      invariant kept + StripStateLines(reply[pos..]) == whole
      decreases |reply| - pos
    {
      var term := EolFrom(reply, pos);
      if term == |reply| {
        LastLine(reply, pos);
        kept := kept + reply[pos..];
        return;
      }
      var next := term + if IsCrLf(reply, term) then 2 else 1;
      PositionStep(kept, reply, pos, term, next);
      if OccursAt(reply, MARKER, pos) {
        assert kept + "" == kept;
      } else {
        kept := kept + reply[pos..next];
      }
      pos := next;
    }
    assert kept + "" == kept;
  }

  lemma LastLine(reply: string, pos: nat)
    requires pos <= |reply| && EolFrom(reply, pos) == |reply|
    ensures StripStateLines(reply[pos..]) == reply[pos..]
  {
    EolOfRest(reply, pos, pos);
  }

  lemma NextLine(reply: string, pos: nat, term: nat, next: nat, rest: string)
    requires pos <= term < next <= |reply| && term == EolFrom(reply, pos) && rest == reply[pos..]
    requires next == term + if IsCrLf(reply, term) then 2 else 1
    ensures LineLength(rest) == next - pos && rest[next - pos..] == reply[next..]
    ensures KeptLine(rest) == if OccursAt(reply, MARKER, pos) then "" else reply[pos..next]
  {
    EolOfRest(reply, pos, pos);
    assert LineLength(rest) == next - pos;
    assert rest[..next - pos] == reply[pos..next];
    MarkerOfRest(reply, pos, rest);
  }

  lemma MarkerOfRest(reply: string, pos: nat, rest: string)
    requires pos <= |reply| && rest == reply[pos..]
    ensures StartsWith(rest, MARKER) <==> OccursAt(reply, MARKER, pos)
  {
    if pos + |MARKER| <= |reply| {
      assert rest[0..|MARKER|] == reply[pos..pos + |MARKER|];
    }
  }

  // A complete heartbeat line starts at p: after a terminator or at the beginning, with a terminator to come.
  ghost predicate StateLineAt(s: string, p: nat) {
    && p < |s| && (p == 0 || IsEol(s[p - 1]))
    && OccursAt(s, MARKER, p)
    && exists t :: p <= t < |s| && IsEol(s[t])
  }

  lemma StateLineShift(a: string, b: string, p: nat)
    requires StateLineAt(a + b, |a| + p)
    requires p > 0 || a == "" || IsEol(a[|a| - 1])
    ensures StateLineAt(b, p)
  {
    var s := a + b;
    assert forall i :: 0 <= i < |b| ==> s[|a| + i] == b[i];
    assert s[|a| + p..|a| + p + |MARKER|] == b[p..p + |MARKER|];
    var t :| |a| + p <= t < |s| && IsEol(s[t]);
    assert IsEol(b[t - |a|]);
  }

  lemma StateLineUnshift(a: string, b: string, p: nat)
    requires StateLineAt(b, p) && (a == "" || IsEol(a[|a| - 1]))
    ensures StateLineAt(a + b, |a| + p)
  {
    var s := a + b;
    assert forall i :: 0 <= i < |b| ==> s[|a| + i] == b[i];
    assert s[|a| + p..|a| + p + |MARKER|] == b[p..p + |MARKER|];
    var t :| p <= t < |b| && IsEol(b[t]);
    assert IsEol(s[|a| + t]);
  }

  lemma MarkerChars(s: string, p: nat)
    requires OccursAt(s, MARKER, p)
    ensures forall i :: p <= i < p + |MARKER| ==> !IsEol(s[i])
    ensures s[p] == '['
  {
    var cut := s[p..p + |MARKER|];
    assert cut[0] == s[p];
    forall i | p <= i < p + |MARKER|
      ensures !IsEol(s[i])
    {
      assert s[i] == cut[i - p] == MARKER[i - p];
    }
  }

  // Putting text after a kept line makes no heartbeat out of it.
  lemma KeptLineIsClean(s: string, r: string, p: nat)
    requires LineLength(s) > 0 && !StartsWith(s, MARKER)
    requires p < LineLength(s)
    ensures !StateLineAt(s[..LineLength(s)] + r, p)
  {
    var n := LineLength(s);
    var line := s[..n];
    var u := line + r;
    LineFacts(s, n);
    assert forall i :: 0 <= i < n ==> u[i] == s[i];
    if StateLineAt(u, p) {
      MarkerChars(u, p);
    }
  }

  lemma CleanAfterLine(line: string, rest: string, p: nat)
    requires line != "" && IsEol(line[|line| - 1]) && |line| <= p
    requires !StateLineAt(rest, p - |line|)
    ensures !StateLineAt(line + rest, p)
  {
    if StateLineAt(line + rest, |line| + (p - |line|)) {
      StateLineShift(line, rest, p - |line|);
    }
  }

  /** No complete heartbeat line is left. */
  lemma {:induction false} NoStateLineLeft(s: string, p: nat)
    ensures !StateLineAt(StripStateLines(s), p)
    decreases |s|
  {
    var n := LineLength(s);
    LineFacts(s, n);
    if n > 0 {
      var rest := StripStateLines(s[n..]);
      StripLine(s, n);
      if StartsWith(s, MARKER) {
        assert "" + rest == rest;
        NoStateLineLeft(s[n..], p);
      } else if p < n {
        KeptLineIsClean(s, rest, p);
      } else {
        NoStateLineLeft(s[n..], p - n);
        CleanAfterLine(s[..n], rest, p);
      }
    }
  }

  /** Text without a complete heartbeat line passes unchanged. */
  lemma {:induction false} OtherTextIsKept(s: string)
    requires forall p: nat :: !StateLineAt(s, p)
    ensures StripStateLines(s) == s
    decreases |s|
  {
    var n := LineLength(s);
    LineFacts(s, n);
    if n > 0 {
      assert !StateLineAt(s, 0);
      assert s[..n] + s[n..] == s;
      forall p: nat
        ensures !StateLineAt(s[n..], p)
      {
        if StateLineAt(s[n..], p) {
          StateLineUnshift(s[..n], s[n..], p);
        }
      }
      OtherTextIsKept(s[n..]);
    }
  }

  /** So filtering twice is filtering once, although dropping a line can join a lone CR with a lone LF. */
  lemma StrippingIsIdempotent(s: string)
    ensures StripStateLines(StripStateLines(s)) == StripStateLines(s)
  {
    forall p: nat
      ensures !StateLineAt(StripStateLines(s), p)
    {
      NoStateLineLeft(s, p);
    }
    OtherTextIsKept(StripStateLines(s));
  }

  // A cut of the input into runs that are kept or dropped.
  datatype Run = Kept(text: string) | Dropped(text: string)

  function All(runs: seq<Run>): string {
    if runs == [] then "" else runs[0].text + All(runs[1..])
  }

  function OnlyKept(runs: seq<Run>): string {
    if runs == [] then "" else (if runs[0].Kept? then runs[0].text else "") + OnlyKept(runs[1..])
  }

  // A dropped run is one heartbeat line with its terminator.
  predicate IsHeartbeat(s: string) {
    StartsWith(s, MARKER) && LineLength(s) == |s|
  }

  lemma RunsCons(first: Run, rest: seq<Run>)
    ensures All([first] + rest) == first.text + All(rest)
    ensures OnlyKept([first] + rest) == (if first.Kept? then first.text else "") + OnlyKept(rest)
  {
    assert ([first] + rest)[1..] == rest;
  }

  // The run of the first complete line.
  function FirstRun(s: string): (r: Run)
    ensures r.text == s[..LineLength(s)]
    ensures (if r.Kept? then r.text else "") == KeptLine(s)
  {
    if StartsWith(s, MARKER) then Dropped(s[..LineLength(s)]) else Kept(s[..LineLength(s)])
  }

  /** Nothing else is lost: the input is the output with complete heartbeat lines put back in between. */
  lemma {:induction false} OnlyHeartbeatsAreDropped(s: string) returns (runs: seq<Run>)
    ensures All(runs) == s && OnlyKept(runs) == StripStateLines(s)
    ensures forall r :: r in runs && r.Dropped? ==> IsHeartbeat(r.text)
    decreases |s|
  {
    var n := LineLength(s);
    if n == 0 {
      runs := [Kept(s)];
      assert s + All([]) == s && s + OnlyKept([]) == s;
    } else {
      var rest := OnlyHeartbeatsAreDropped(s[n..]);
      var first := FirstRun(s);
      runs := [first] + rest;
      RunsCons(first, rest);
      StripLine(s, n);
      assert s[..n] + s[n..] == s;
      FirstRunDrops(s, first);
    }
  }

  lemma FirstRunDrops(s: string, first: Run)
    requires LineLength(s) > 0 && first == FirstRun(s)
    ensures first.Dropped? ==> IsHeartbeat(first.text)
  {
    if StartsWith(s, MARKER) {
      FirstLineAlone(s);
    }
  }

  lemma FirstLineAlone(s: string)
    requires LineLength(s) > 0 && StartsWith(s, MARKER)
    ensures IsHeartbeat(s[..LineLength(s)])
  {
    var n := LineLength(s);
    var line := s[..n];
    LineFacts(s, n);
    MarkerChars(s, 0);
    assert n > |MARKER|;
    assert line[0..|MARKER|] == s[0..|MARKER|];
    assert IsEol(line[n - 1]);
  }

  // ======== acknowledgements ========

  // Cutting a stream between a and b does not cut a CR LF pair.
  predicate CleanCut(a: string, b: string) {
    a != "" && a[|a| - 1] == '\r' && b != "" ==> b[0] != '\n'
  }

  // The line splitter restarts after a terminated prefix, unless that would cut a CR LF pair.
  lemma {:induction false} StripAppend(a: string, b: string)
    requires a != "" ==> IsEol(a[|a| - 1])
    requires CleanCut(a, b)
    ensures StripStateLines(a + b) == StripStateLines(a) + StripStateLines(b)
    decreases |a|
  {
    if a == "" {
      assert a + b == b && StripStateLines(a) == "";
    } else {
      var n := LineLength(a);
      var rest := a[n..];
      LineFacts(a, n);
      FirstLineKept(a, b, n);
      StripLine(a, n);
      StripLine(a + b, n);
      assert rest != "" ==> rest[|rest| - 1] == a[|a| - 1];
      StripAppend(rest, b);
      Assoc(KeptLine(a), StripStateLines(rest), StripStateLines(b));
    }
  }

  lemma FirstLineKept(a: string, b: string, n: nat)
    requires n == LineLength(a) > 0 && CleanCut(a, b)
    ensures LineLength(a + b) == n && KeptLine(a + b) == KeptLine(a) && (a + b)[n..] == a[n..] + b
  {
    FirstLineOf(a, b);
    assert (a + b)[..n] == a[..n];
  }

  lemma FirstLineOf(a: string, b: string)
    requires LineLength(a) > 0 && CleanCut(a, b)
    ensures LineLength(a + b) == LineLength(a)
    ensures StartsWith(a + b, MARKER) == StartsWith(a, MARKER)
  {
    var s, n := a + b, LineLength(a);
    LineFacts(a, n);
    assert forall i :: 0 <= i < |a| ==> s[i] == a[i];
    assert b != "" ==> s[|a|] == b[0];
    assert EolFrom(a, 0) == EolFrom(s, 0);
    if StartsWith(s, MARKER) {
      MarkerChars(s, 0);
      assert a[..|MARKER|] == s[..|MARKER|];
    }
    if StartsWith(a, MARKER) {
      assert a[..|MARKER|] == s[..|MARKER|];
    }
  }

  predicate Matches(reply: string, wanted: string) {
    wanted == "" || Contains(StripStateLines(reply), wanted)
  }

  // One complete line: text closed by CR, LF or CR LF.
  predicate IsLine(line: string) {
    line != "" && LineLength(line) == |line|
  }

  lemma OtherLineIsKept(line: string)
    requires IsLine(line) && !StartsWith(line, MARKER)
    ensures StripStateLines(line) == line
  {
    StripLine(line, |line|);
    assert line[|line|..] == "" && line[..|line|] == line;
    assert line + "" == line;
  }

  lemma FoundInside(a: string, line: string, z: string, wanted: string, at: nat)
    requires OccursAt(line, wanted, at)
    ensures Contains(a + (line + z), wanted)
  {
    var s := a + (line + z);
    assert s[|a| + at..|a| + at + |wanted|] == line[at..at + |wanted|];
    assert OccursAt(s, wanted, |a| + at);
  }

  /** Heartbeats never hide an acknowledgement: once its own line is complete, whatever lines came before and
      whatever follows, the search finds it. The line may end in CR, LF or CR LF; the surrounding text is cut
      between lines, not inside a CR LF pair. */
  lemma AckIsFound(before: string, line: string, after: string, wanted: string, at: nat)
    requires before != "" ==> IsEol(before[|before| - 1])
    requires CleanCut(before, line) && CleanCut(line, after)
    requires IsLine(line) && !StartsWith(line, MARKER)
    requires OccursAt(line, wanted, at)
    ensures Matches(before + (line + after), wanted)
  {
    LineFacts(line, |line|);
    OtherLineIsKept(line);
    StripAppend(line, after);
    assert (line + after)[0] == line[0];
    StripAppend(before, line + after);
    FoundInside(StripStateLines(before), line, StripStateLines(after), wanted, at);
  }

  /** In particular the acknowledgement as the device prints it, closed by CR LF. */
  lemma PrintedAckIsFound(before: string, body: string, after: string, wanted: string, at: nat)
    requires before != "" ==> before[|before| - 1] == '\n'
    requires NoEol(body) && !StartsWith(body, MARKER) && OccursAt(body, wanted, at)
    ensures Matches(before + (body + "\r\n" + after), wanted)
  {
    var line := body + "\r\n";
    PrintedLine(body);
    assert line[at..at + |wanted|] == body[at..at + |wanted|];
    AckIsFound(before, line, after, wanted, at);
  }

  lemma PrintedLine(body: string)
    requires NoEol(body) && !StartsWith(body, MARKER)
    ensures IsLine(body + "\r\n") && !StartsWith(body + "\r\n", MARKER)
  {
    var line, n := body + "\r\n", |body|;
    assert line[n] == '\r' && line[n + 1] == '\n' && forall i :: 0 <= i < n ==> line[i] == body[i];
    assert EolFrom(line, 0) == n;
    if |MARKER| <= n {
      assert line[..|MARKER|] == body[..|MARKER|];
    }
    if StartsWith(line, MARKER) {
      MarkerChars(line, 0);
    }
  }

  // ---- when the verdict depends on the reads ----

  // A heartbeat line, complete or not, that starts at p has the wanted word at i.
  ghost predicate HeartbeatHoldsAt(s: string, wanted: string, p: nat, i: nat) {
    && (p == 0 || (p <= |s| && IsEol(s[p - 1])))
    && OccursAt(s, MARKER, p) && p <= i && OccursAt(s, wanted, i)
    && forall j :: p <= j < i ==> !IsEol(s[j])
  }

  ghost predicate HeartbeatHolds(s: string, wanted: string) {
    exists p: nat, i: nat :: HeartbeatHoldsAt(s, wanted, p, i)
  }

  predicate IsWord(wanted: string) {
    wanted != "" && NoEol(wanted)
  }

  lemma OccursChars(s: string, pat: string, i: nat)
    requires OccursAt(s, pat, i)
    ensures forall j :: 0 <= j < |pat| ==> s[i + j] == pat[j]
  {
    var cut := s[i..i + |pat|];
    assert forall j :: 0 <= j < |pat| ==> cut[j] == s[i + j];
  }

  lemma WordChars(s: string, wanted: string, i: nat)
    requires IsWord(wanted) && OccursAt(s, wanted, i)
    ensures i < |s| && forall j :: i <= j < i + |wanted| ==> !IsEol(s[j])
  {
    OccursChars(s, wanted, i);
    forall j | i <= j < i + |wanted|
      ensures !IsEol(s[j])
    {
      assert s[i + (j - i)] == wanted[j - i];
    }
  }

  // A word inside the first line stands before its terminator.
  lemma WordInLine(s: string, n: nat, wanted: string, i: nat)
    requires n == LineLength(s) > 0 && IsWord(wanted) && OccursAt(s, wanted, i) && i < n
    ensures i + |wanted| < n && forall j :: 0 <= j < i ==> !IsEol(s[j])
  {
    LineFacts(s, n);
    WordChars(s, wanted, i);
  }

  lemma HoldsShift(a: string, b: string, wanted: string)
    requires a != "" && IsEol(a[|a| - 1]) && HeartbeatHolds(b, wanted)
    ensures HeartbeatHolds(a + b, wanted)
  {
    var p: nat, i: nat :| HeartbeatHoldsAt(b, wanted, p, i);
    var s := a + b;
    assert forall j :: 0 <= j < |b| ==> s[|a| + j] == b[j];
    assert p == 0 ==> s[|a| - 1] == a[|a| - 1];
    assert p > 0 ==> s[|a| + p - 1] == s[|a| + (p - 1)] == b[p - 1];
    assert s[|a| + p..|a| + p + |MARKER|] == b[p..p + |MARKER|];
    assert s[|a| + i..|a| + i + |wanted|] == b[i..i + |wanted|];
    forall j | |a| + p <= j < |a| + i
      ensures !IsEol(s[j])
    {
      assert s[|a| + (j - |a|)] == b[j - |a|];
    }
    assert HeartbeatHoldsAt(s, wanted, |a| + p, |a| + i);
  }

  lemma ContainsAt(s: string, wanted: string, i: nat)
    requires OccursAt(s, wanted, i)
    ensures Contains(s, wanted)
  {
  }

  lemma WordInFirstLine(s: string, n: nat, wanted: string, i: nat)
    requires n == LineLength(s) > i && IsWord(wanted) && OccursAt(s, wanted, i)
    ensures Matches(s, wanted) || HeartbeatHolds(s, wanted)
  {
    WordInLine(s, n, wanted, i);
    if StartsWith(s, MARKER) {
      assert HeartbeatHoldsAt(s, wanted, 0, i);
    } else {
      var line, rest := s[..n], StripStateLines(s[n..]);
      StripLine(s, n);
      assert line[i..i + |wanted|] == s[i..i + |wanted|];
      ContainsAt(line, wanted, i);
      FoundBefore(line, rest, wanted);
    }
  }

  lemma MatchBehindLine(s: string, n: nat, wanted: string)
    requires n == LineLength(s) > 0 && IsWord(wanted) && Matches(s[n..], wanted)
    ensures Matches(s, wanted)
  {
    var rest := StripStateLines(s[n..]);
    StripLine(s, n);
    FoundBehind(KeptLine(s), rest, wanted);
  }

  lemma HoldsBehindLine(s: string, n: nat, wanted: string)
    requires n == LineLength(s) > 0 && HeartbeatHolds(s[n..], wanted)
    ensures HeartbeatHolds(s, wanted)
  {
    var line, rest := s[..n], s[n..];
    LineFacts(s, n);
    HoldsShift(line, rest, wanted);
    assert line + rest == s;
  }

  // A word of the stream is in the filtered stream or in a heartbeat line.
  lemma {:induction false} KeptOrHeartbeat(s: string, wanted: string, i: nat)
    requires IsWord(wanted) && OccursAt(s, wanted, i)
    ensures Matches(s, wanted) || HeartbeatHolds(s, wanted)
    decreases |s|
  {
    var n := LineLength(s);
    if n == 0 {
      ContainsAt(s, wanted, i);
    } else if i < n {
      WordInFirstLine(s, n, wanted, i);
    } else {
      WordInRest(s, n, wanted, i);
      KeptOrHeartbeat(s[n..], wanted, i - n);
      if Matches(s[n..], wanted) {
        MatchBehindLine(s, n, wanted);
      } else {
        HoldsBehindLine(s, n, wanted);
      }
    }
  }

  lemma WordInRest(s: string, n: nat, wanted: string, i: nat)
    requires n <= i && OccursAt(s, wanted, i)
    ensures OccursAt(s[n..], wanted, i - n)
  {
    assert s[n..][i - n..i - n + |wanted|] == s[i..i + |wanted|];
  }

  lemma FoundBehind(a: string, b: string, wanted: string)
    requires Contains(b, wanted)
    ensures Contains(a + b, wanted)
  {
    var i := Find(b, wanted);
    assert (a + b)[|a| + i..|a| + i + |wanted|] == b[i..i + |wanted|];
    ContainsAt(a + b, wanted, |a| + i);
  }

  // A word across a terminated piece and what follows lies in one of them.
  lemma WordApart(a: string, b: string, wanted: string)
    requires IsWord(wanted) && a != "" && IsEol(a[|a| - 1]) && Contains(a + b, wanted)
    ensures Contains(a, wanted) || Contains(b, wanted)
  {
    var s := a + b;
    var i := Find(s, wanted);
    WordChars(s, wanted, i);
    assert s[|a| - 1] == a[|a| - 1];
    if i >= |a| {
      assert s[|a|..] == b;
      WordInRest(s, |a|, wanted, i);
      ContainsAt(b, wanted, i - |a|);
    } else if i + |wanted| <= |a| {
      assert a[i..i + |wanted|] == s[i..i + |wanted|];
      ContainsAt(a, wanted, i);
    }
  }

  lemma FoundBefore(a: string, b: string, wanted: string)
    requires Contains(a, wanted)
    ensures Contains(a + b, wanted)
  {
    var i := Find(a, wanted);
    assert (a + b)[i..i + |wanted|] == a[i..i + |wanted|];
    ContainsAt(a + b, wanted, i);
  }

  // The filter invents no word.
  lemma {:induction false} MatchIsReal(s: string, wanted: string)
    requires IsWord(wanted) && Matches(s, wanted)
    ensures Contains(s, wanted)
    decreases |s|
  {
    var n := LineLength(s);
    if n > 0 {
      var line, rest := s[..n], s[n..];
      LineFacts(s, n);
      StripLine(s, n);
      assert s == line + rest;
      if StartsWith(s, MARKER) {
        assert "" + StripStateLines(rest) == StripStateLines(rest);
        MatchIsReal(rest, wanted);
        FoundBehind(line, rest, wanted);
      } else {
        WordApart(line, StripStateLines(rest), wanted);
        if !Contains(line, wanted) {
          MatchIsReal(rest, wanted);
          FoundBehind(line, rest, wanted);
        } else {
          FoundBefore(line, rest, wanted);
        }
      }
    }
  }

  // A stream that ends in the middle of a line keeps that line.
  lemma {:induction false} OpenEndIsKept(s: string, wanted: string, i: nat)
    requires IsWord(wanted) && OccursAt(s, wanted, i) && i + |wanted| == |s|
    ensures Matches(s, wanted)
    decreases |s|
  {
    var n := LineLength(s);
    LineFacts(s, n);
    if n == 0 {
      ContainsAt(s, wanted, i);
    } else {
      if i < n {
        WordInLine(s, n, wanted, i);
      }
      WordInRest(s, n, wanted, i);
      OpenEndIsKept(s[n..], wanted, i - n);
      StripLine(s, n);
      FoundBehind(KeptLine(s), StripStateLines(s[n..]), wanted);
    }
  }

  lemma SeenIsContained(s: string, wanted: string, k: nat)
    requires IsWord(wanted) && k <= |s| && Matches(s[..k], wanted)
    ensures Contains(s, wanted)
  {
    MatchIsReal(s[..k], wanted);
    assert s == s[..k] + s[k..];
    FoundBefore(s[..k], s[k..], wanted);
  }

  lemma ContainedIsSeen(s: string, wanted: string) returns (k: nat)
    requires IsWord(wanted) && Contains(s, wanted)
    ensures k <= |s| && Matches(s[..k], wanted)
    ensures Matches(s, wanted) || HeartbeatHolds(s, wanted)
  {
    var i := Find(s, wanted);
    KeptOrHeartbeat(s, wanted, i);
    k := i + |wanted|;
    assert s[..k][i..k] == s[i..k];
    OpenEndIsKept(s[..k], wanted, i);
  }

  lemma HoldsIsContained(s: string, wanted: string)
    requires HeartbeatHolds(s, wanted)
    ensures Contains(s, wanted)
  {
    var p: nat, i: nat :| HeartbeatHoldsAt(s, wanted, p, i);
    ContainsAt(s, wanted, i);
  }

  /** Some cut of the stream shows an acknowledgement exactly when the stream contains the awaited word at all,
      that is, when the filtered stream or some heartbeat line contains it. */
  lemma AckSeenExactly(s: string, wanted: string)
    requires IsWord(wanted)
    ensures (exists k: nat :: k <= |s| && Matches(s[..k], wanted)) <==>
      Matches(s, wanted) || HeartbeatHolds(s, wanted)
    ensures Matches(s, wanted) || HeartbeatHolds(s, wanted) <==> Contains(s, wanted)
  {
    if k: nat :| k <= |s| && Matches(s[..k], wanted) {
      SeenIsContained(s, wanted, k);
    }
    if Matches(s, wanted) {
      MatchIsReal(s, wanted);
    }
    if HeartbeatHolds(s, wanted) {
      HoldsIsContained(s, wanted);
    }
    if Contains(s, wanted) {
      var k := ContainedIsSeen(s, wanted);
    }
  }

  // ---- the command's own loop ----

  // After some poll the bytes received so far match.
  ghost predicate Seen(polls: seq<Poll>, wanted: string) {
    exists j: nat :: SeenAt(polls, wanted, j)
  }

  predicate SeenAt(polls: seq<Poll>, wanted: string, j: nat) {
    0 < j <= |polls| && NeverStops(polls[..j]) && Matches(Received(polls[..j]), wanted)
  }

  predicate NeverStops(polls: seq<Poll>) {
    forall k :: 0 <= k < |polls| ==> !Stops(polls[k])
  }

  function Bytes(p: Poll): string {
    if p.Data? then p.bytes else ""
  }

  lemma {:induction false} ReceivedSnoc(polls: seq<Poll>, p: Poll)
    requires NeverStops(polls) && !Stops(p)
    ensures Received(polls + [p]) == Received(polls) + Bytes(p)
  {
    if polls == [] {
      assert polls + [p] == [p];
      assert Bytes(p) + "" == Bytes(p) && [p][1..] == [];
    } else {
      assert (polls + [p])[1..] == polls[1..] + [p];
      ReceivedSnoc(polls[1..], p);
      Assoc(Bytes(polls[0]), Received(polls[1..]), Bytes(p));
    }
  }

  // No poll up to the k-th showed the word.
  ghost predicate UnseenUpTo(polls: seq<Poll>, wanted: string, k: nat) {
    forall j: nat :: j <= k ==> !SeenAt(polls, wanted, j)
  }

  lemma PollAdvances(polls: seq<Poll>, k: nat)
    requires k < |polls| && NeverStops(polls[..k]) && !Stops(polls[k])
    ensures NeverStops(polls[..k + 1])
    ensures Received(polls[..k + 1]) == Received(polls[..k]) + Bytes(polls[k])
  {
    assert polls[..k + 1] == polls[..k] + [polls[k]];
    ReceivedSnoc(polls[..k], polls[k]);
  }

  lemma PollStops(polls: seq<Poll>, wanted: string, k: nat)
    requires k < |polls| && Stops(polls[k]) && UnseenUpTo(polls, wanted, k)
    ensures !Seen(polls, wanted)
  {
    forall j: nat
      ensures !SeenAt(polls, wanted, j)
    {
      if k < j <= |polls| {
        assert polls[..j][k] == polls[k];
      }
    }
  }

  lemma PollVerdict(polls: seq<Poll>, wanted: string, k: nat)
    requires k < |polls| && NeverStops(polls[..k + 1]) && UnseenUpTo(polls, wanted, k)
    ensures if Matches(Received(polls[..k + 1]), wanted) then Seen(polls, wanted)
            else UnseenUpTo(polls, wanted, k + 1)
  {
    if Matches(Received(polls[..k + 1]), wanted) {
      assert SeenAt(polls, wanted, k + 1);
    }
  }

  /** The provisioning command's wait: it succeeds exactly when after some poll, before any failure of the port,
      the filtered bytes received so far contain the awaited word. */
  method AwaitAck(polls: seq<Poll>, wanted: string) returns (matched: bool)
    ensures matched <==> Seen(polls, wanted)
  {
    var reply, k := "", 0;
    while k < |polls|
      invariant 0 <= k <= |polls| && NeverStops(polls[..k])
      invariant reply == Received(polls[..k])
      invariant UnseenUpTo(polls, wanted, k)
    {
      if Stops(polls[k]) {
        PollStops(polls, wanted, k);
        return false;
      }
      PollAdvances(polls, k);
      PollVerdict(polls, wanted, k);
      reply := reply + Bytes(polls[k]);
      if Matches(reply, wanted) {
        return true;
      }
      k := k + 1;
    }
    return false;
  }

  lemma {:induction false} ReceivedPrefix(polls: seq<Poll>, j: nat)
    requires j <= |polls| && NeverStops(polls)
    ensures |Received(polls[..j])| <= |Received(polls)|
    ensures Received(polls[..j]) == Received(polls)[..|Received(polls[..j])|]
  {
    if j > 0 {
      assert polls[..j][1..] == polls[1..][..j - 1];
      ReceivedPrefix(polls[1..], j - 1);
    }
  }

  // Two reads that cut the stream at k.
  lemma TwoReads(s: string, wanted: string, k: nat)
    requires k <= |s| && Matches(s[..k], wanted)
    ensures var polls := [Data(s[..k]), Data(s[k..])];
      NeverStops(polls) && Received(polls) == s && Seen(polls, wanted)
  {
    var first, second := Data(s[..k]), Data(s[k..]);
    ReceivedSnoc([], first);
    ReceivedSnoc([first], second);
    assert [] + [first] == [first] && [first] + [second] == [first, second];
    assert "" + s[..k] == s[..k] && s[..k] + s[k..] == s;
    assert [first, second][..1] == [first];
    assert SeenAt([first, second], wanted, 1);
  }

  /** Unlike the status line, the verdict can depend on the reads, and exactly then: every way of reading the
      stream s gives the verdict of s as a whole unless a heartbeat line contains the awaited word while the
      filtered stream does not. */
  lemma AckDependsOnChunking(s: string, wanted: string)
    requires IsWord(wanted)
    ensures (forall polls ::
               NeverStops(polls) && Received(polls) == s ==> (Seen(polls, wanted) <==> Matches(s, wanted)))
      <==> !(HeartbeatHolds(s, wanted) && !Matches(s, wanted))
  {
    AckSeenExactly(s, wanted);
    if HeartbeatHolds(s, wanted) && !Matches(s, wanted) {
      var k: nat :| k <= |s| && Matches(s[..k], wanted);
      TwoReads(s, wanted, k);
    } else {
      forall polls | NeverStops(polls) && Received(polls) == s
        ensures Seen(polls, wanted) <==> Matches(s, wanted)
      {
        VerdictOfReads(polls, s, wanted);
      }
    }
  }

  lemma VerdictOfReads(polls: seq<Poll>, s: string, wanted: string)
    requires IsWord(wanted) && NeverStops(polls) && Received(polls) == s
    requires Matches(s, wanted) || !HeartbeatHolds(s, wanted)
    ensures Seen(polls, wanted) <==> Matches(s, wanted)
  {
    AckSeenExactly(s, wanted);
    if Matches(s, wanted) {
      MatchIsReal(s, wanted);
      assert polls[..|polls|] == polls;
      assert SeenAt(polls, wanted, |polls|);
    }
    if Seen(polls, wanted) {
      var j: nat :| SeenAt(polls, wanted, j);
      ReceivedPrefix(polls, j);
      SeenIsContained(s, wanted, |Received(polls[..j])|);
    }
  }
}
