/** Decoding of OBD-II responses as the ELM327 adapter prints them: prompt, banners, separators, line labels
    and hex digits, in any chunking of the digits. */
module Obd2Response {
  import opened Machine
  import opened Text
  import opened Wrappers

  const BANNERS: seq<string> := ["SEARCHING", "BUSINIT", "OK"]

  const ERRORS: seq<string> :=
    ["NO DATA", "ERROR", "STOPPED", "UNABLE TO CONNECT", "BUS ERROR", "BUFFER FULL", "CAN ERROR"]

  // '.', ':' and the characters isspace accepts.
  const SEPARATORS: set<char> := {'.', ':', ' ', '\t', '\n', '\r', '\U{0B}', '\U{0C}'}

  // ======== banner stripping ========

  // Some banner occurs at i.
  predicate BannerAt(s: string, i: nat) {
    exists p :: p in BANNERS && OccursAt(s, p, i)
  }

  predicate IsLetter(c: char) {
    'a' <= c <= 'z' || 'A' <= c <= 'Z'
  }

  // Specification: what follows the earliest banner and the separators after it.
  ghost predicate IsStripped(s: string, r: string) {
    if forall i: nat :: !BannerAt(s, i) then r == s
    else exists p, i: nat :: StripsAt(s, r, p, i)
  }

  // Banner p at i is the earliest, and r is what follows it.
  ghost predicate StripsAt(s: string, r: string, p: string, i: nat) {
    && p in BANNERS && OccursAt(s, p, i) && r == TrimLeft(s[i + |p|..], SEPARATORS)
    && forall j: nat :: j < i ==> !BannerAt(s, j)
  }

  lemma BannerHeads(s: string, p: string, i: nat)
    requires p in BANNERS && OccursAt(s, p, i)
    ensures forall k :: 0 <= k < |p| ==> s[i + k] == p[k]
    ensures i + 2 <= |s| && s[i] in {'S', 'B', 'O'} && (s[i] == 'S' ==> s[i + 1] == 'E')
    ensures i + |p| <= |s|
    ensures IsLetter(s[i]) && IsLetter(s[i + 1]) && !(IsHex(s[i]) && IsHex(s[i + 1]))
  {
    var cut := s[i..i + |p|];
    assert forall k :: 0 <= k < |p| ==> cut[k] == s[i + k];
    assert s[i + 0] == p[0] && s[i + 1] == p[1];
  }

  // Inside a banner no other begins.
  lemma BannerInterior(p: string, k: nat)
    requires p in BANNERS && 0 < k < |p|
    ensures p[k] in {'S', 'B', 'O'} ==> p[k] == 'S' && k + 1 < |p| && p[k + 1] == 'I'
  {
  }

  // Banners never overlap.
  lemma BannersApart(s: string, p: string, i: nat, q: string, j: nat)
    requires p in BANNERS && q in BANNERS && OccursAt(s, p, i) && OccursAt(s, q, j)
    ensures i == j ==> p == q
    ensures i < j ==> i + |p| <= j
  {
    BannerHeads(s, p, i);
    BannerHeads(s, q, j);
    if i == j {
      assert s[i + 0] == p[0] == q[0];
    } else if i < j < i + |p| {
      BannerInterior(p, j - i);
    }
  }

  // Where the separators from position k end.
  function PastSeparators(s: string, k: nat): (r: nat)
    requires k <= |s|
    ensures k <= r <= |s|
    decreases |s| - k
  {
    if k < |s| && s[k] in SEPARATORS then PastSeparators(s, k + 1) else k
  }

  lemma {:induction false} PastSeparatorsTrims(s: string, k: nat)
    requires k <= |s|
    ensures s[PastSeparators(s, k)..] == TrimLeft(s[k..], SEPARATORS)
    ensures forall j :: k <= j < PastSeparators(s, k) ==> s[j] in SEPARATORS
    decreases |s| - k
  {
    if k < |s| && s[k] in SEPARATORS {
      PastSeparatorsTrims(s, k + 1);
      assert s[k..][1..] == s[k + 1..];
    }
  }

  // The loop compares a banner's position with the start of the data, yet it finds the earlier banner.
  lemma ClosestBanner(s: string, p: string, i: nat, q: string, j: nat)
    requires p in BANNERS && q in BANNERS && OccursAt(s, p, i) && OccursAt(s, q, j)
    ensures j < PastSeparators(s, i + |p|) <==> j < i || (j == i && p == q)
  {
    BannersApart(s, p, i, q, j);
    PastSeparatorsTrims(s, i + |p|);
    BannerHeads(s, q, j);
  }

  // None of the visited banners occurs, or best, at position at, is the earliest of them.
  ghost predicate Earliest(s: string, visited: seq<string>, best: string, at: nat) {
    && best in BANNERS && OccursAt(s, best, at)
    && forall q :: q in visited ==> Find(s, q) == -1 || at <= Find(s, q)
  }

  ghost predicate Visited(s: string, visited: seq<string>, dataStart: int, best: string, at: nat) {
    if dataStart == -1 then forall q :: q in visited ==> Find(s, q) == -1
    else Earliest(s, visited, best, at) && dataStart == PastSeparators(s, at + |best|)
  }

  lemma VisitNext(s: string, visited: seq<string>, p: string, dataStart: int, best: string, at: nat)
    requires Visited(s, visited, dataStart, best, at) && p in BANNERS && dataStart >= -1
    ensures var pos := Find(s, p);
      if pos != -1 && (dataStart == -1 || pos < dataStart)
      then Visited(s, visited + [p], PastSeparators(s, pos + |p|), p, pos)
      else Visited(s, visited + [p], dataStart, best, at)
  {
    var pos := Find(s, p);
    if pos != -1 && dataStart != -1 {
      ClosestBanner(s, best, at, p, pos);
    }
  }

  lemma NoneEarlier(s: string, order: seq<string>, dataStart: int, best: string, at: nat, j: nat)
    requires forall p :: p in order <==> p in BANNERS
    requires Visited(s, order, dataStart, best, at) && BannerAt(s, j)
    ensures dataStart != -1 && at <= j
  {
    var q :| q in BANNERS && OccursAt(s, q, j);
    assert q in order && Find(s, q) <= j;
  }

  lemma VisitAll(s: string, order: seq<string>, dataStart: int, best: string, at: nat)
    requires forall p :: p in order <==> p in BANNERS
    requires Visited(s, order, dataStart, best, at) && -1 <= dataStart <= |s|
    ensures IsStripped(s, if dataStart == -1 then s else s[dataStart..])
  {
    forall j: nat | BannerAt(s, j)
      ensures dataStart != -1 && at <= j
    {
      NoneEarlier(s, order, dataStart, best, at, j);
    }
    if dataStart != -1 {
      PastSeparatorsTrims(s, at + |best|);
      assert BannerAt(s, at);
      assert StripsAt(s, s[dataStart..], best, at);
    }
  }

  method SkipSeparators(s: string, from: nat) returns (r: nat)
    requires from <= |s|
    ensures r == PastSeparators(s, from)
  {
    r := from;
    while r < |s| && s[r] in SEPARATORS
      invariant from <= r <= |s|
      invariant PastSeparators(s, r) == PastSeparators(s, from)
    {
      r := r + 1;
    }
  }

  /** The stripping loop, visiting the banners in any order a hash set may produce. */
  method StripInfoPrefixes(cleaned: string, order: seq<string>) returns (r: string)
    requires forall p :: p in order <==> p in BANNERS
    ensures IsStripped(cleaned, r)
  {
    var dataStart := -1;
    ghost var best: string, at: nat := "", 0;
    var k := 0;
    while k < |order|
      invariant 0 <= k <= |order| && -1 <= dataStart <= |cleaned|
      invariant Visited(cleaned, order[..k], dataStart, best, at)
    {
      var p := order[k];
      var pos := Find(cleaned, p);
      assert order[..k + 1] == order[..k] + [p];
      VisitNext(cleaned, order[..k], p, dataStart, best, at);
      if pos != -1 && (dataStart == -1 || pos < dataStart) {
        dataStart := SkipSeparators(cleaned, pos + |p|);
        best, at := p, pos;
      }
      k := k + 1;
    }
    assert order[..k] == order;
    VisitAll(cleaned, order, dataStart, best, at);
    r := if dataStart == -1 then cleaned else cleaned[dataStart..];
  }

  /** So the order in which the banners are tried never shows. */
  lemma StrippingIsDetermined(s: string, r: string, r': string)
    requires IsStripped(s, r) && IsStripped(s, r')
    ensures r == r'
  {
    if !(forall i: nat :: !BannerAt(s, i)) {
      var p, i: nat :| StripsAt(s, r, p, i);
      var p', i': nat :| StripsAt(s, r', p', i');
      SameStripping(s, r, p, i, r', p', i');
    }
  }

  lemma SameStripping(s: string, r: string, p: string, i: nat, r': string, p': string, i': nat)
    requires StripsAt(s, r, p, i) && StripsAt(s, r', p', i')
    ensures r == r'
  {
    assert BannerAt(s, i) && BannerAt(s, i');
    assert i == i';
    BannersApart(s, p, i, p', i');
  }

  // ======== the digit accumulator ========

  datatype Acc = Acc(hex: string, out: seq<byte>)

  function Flush(a: Acc): (r: Acc)
    requires AllHex(a.hex)
    ensures AllHex(r.hex) && |r.hex| == |a.hex| % 2
  {
    var n := |a.hex| / 2 * 2;
    Acc(a.hex[n..], a.out + PairBytes(a.hex[..n]))
  }

  function Step(a: Acc, c: char): (r: Acc)
    requires AllHex(a.hex)
    ensures AllHex(r.hex)
  {
    if IsHex(c) then assert IsHex(Upper(c)); Acc(a.hex + [Upper(c)], a.out)
    else if c == ':' then Acc("", a.out)
    else Flush(a)
  }

  function Run(a: Acc, s: string): (r: Acc)
    requires AllHex(a.hex)
    ensures AllHex(r.hex)
  {
    if s == "" then a else Step(Run(a, s[..|s| - 1]), s[|s| - 1])
  }

  const START := Acc("", [])

  function Result(a: Acc): Option<seq<byte>>
    requires AllHex(a.hex)
  {
    var r := Flush(a);
    if r.hex != "" || r.out == [] then None else Some(r.out)
  }

  method FlushHexAccumulator(hex: string, out: seq<byte>) returns (hex': string, out': seq<byte>)
    requires AllHex(hex)
    ensures Acc(hex', out') == Flush(Acc(hex, out))
  {
    hex', out' := hex, out;
    ghost var done := 0;
    while |hex'| >= 2
      invariant 0 <= done && 2 * done <= |hex| && hex' == hex[2 * done..]
      invariant out' == out + PairBytes(hex[..2 * done])
      decreases |hex'|
    {
      var b: byte := PairVal(hex', 0);
      OneMorePair(hex, done);
      assert hex'[2..] == hex[2 * (done + 1)..];
      out' := out' + [b];
      hex' := hex'[2..];
      done := done + 1;
    }
  }

  lemma OneMorePair(hex: string, k: nat)
    requires AllHex(hex) && 2 * k + 2 <= |hex|
    ensures IsHexPair(hex[2 * k..], 0)
    ensures PairBytes(hex[..2 * (k + 1)]) == PairBytes(hex[..2 * k]) + [PairVal(hex[2 * k..], 0)]
  {
    var a, b := hex[..2 * k], hex[2 * k..2 * k + 2];
    assert hex[..2 * (k + 1)] == a + b;
    PairBytesAppend(a, b);
    PairBytesAt(b, 0);
    assert PairBytes(b) == [PairVal(b, 0)];
  }

  method Accumulate(s: string) returns (r: Option<seq<byte>>)
    ensures r == Result(Run(START, s))
  {
    var hex, out: seq<byte> := "", [];
    var i := 0;
    while i < |s|
      invariant 0 <= i <= |s| && AllHex(hex)
      invariant Acc(hex, out) == Run(START, s[..i])
    {
      var c := s[i];
      assert s[..i + 1][..i] == s[..i];
      if IsHex(c) {
        hex := hex + [Upper(c)];
      } else if c == ':' {
        hex := "";
      } else {
        hex, out := FlushHexAccumulator(hex, out);
      }
      i := i + 1;
    }
    assert s[..i] == s;
    hex, out := FlushHexAccumulator(hex, out);
    if hex != "" || out == [] {
      return None;
    }
    return Some(out);
  }

  // The hex digits of a text, upper-cased.
  function Kept(s: string): (r: string)
    ensures AllHex(r)
  {
    if s == "" then ""
    else
      var k := Kept(s[..|s| - 1]);
      if IsHex(s[|s| - 1]) then k + [Upper(s[|s| - 1])] else k
  }

  // Bytes decoded so far and digits pending spell the digits kept: pairing crosses every separator.
  lemma {:induction false} RunSpells(s: string) returns (done: string)
    requires Lacks(s, ':')
    ensures AllHex(done) && |done| % 2 == 0
    ensures Run(START, s).out == PairBytes(done) && Kept(s) == done + Run(START, s).hex
  {
    if s == "" {
      done := "";
    } else {
      var s', c := s[..|s| - 1], s[|s| - 1];
      var a := Run(START, s');
      done := RunSpells(s');
      if IsHex(c) {
        assert done + a.hex + [Upper(c)] == done + (a.hex + [Upper(c)]);
      } else {
        done := FlushSpells(a, done);
      }
    }
  }

  lemma FlushSpells(a: Acc, before: string) returns (done: string)
    requires AllHex(a.hex) && AllHex(before) && |before| % 2 == 0 && a.out == PairBytes(before)
    ensures AllHex(done) && |done| % 2 == 0
    ensures Flush(a).out == PairBytes(done) && before + a.hex == done + Flush(a).hex
  {
    var n := |a.hex| / 2 * 2;
    var pairs, rest := a.hex[..n], a.hex[n..];
    assert a.hex == pairs + rest;
    done := before + pairs;
    EvenSum(|before|, |a.hex| / 2);
    PairBytesAppend(before, pairs);
    Assoc(before, pairs, rest);
  }

  lemma EvenSum(x: nat, h: nat)
    requires x % 2 == 0
    ensures (x + h * 2) % 2 == 0
  {
  }

  lemma FinalSpells(s: string) returns (done: string)
    requires Lacks(s, ':')
    ensures AllHex(done) && |done| % 2 == 0
    ensures Flush(Run(START, s)).out == PairBytes(done) && Kept(s) == done + Flush(Run(START, s)).hex
  {
    var before := RunSpells(s);
    done := FlushSpells(Run(START, s), before);
  }

  /** On text without ':' the streaming accumulator keeps the hex digits and pairs them: it fails exactly on an
      odd or zero number of digits, wherever the separators stand. */
  lemma AccumulatorPairsDigits(s: string)
    requires Lacks(s, ':')
    ensures Result(Run(START, s)) ==
      if |Kept(s)| == 0 || |Kept(s)| % 2 == 1 then None else Some(PairBytes(Kept(s)))
  {
    var done := FinalSpells(s);
    Finished(Flush(Run(START, s)), done, Kept(s));
  }

  lemma Finished(r: Acc, done: string, kept: string)
    requires |done| % 2 == 0 && |r.hex| <= 1 && |r.out| == |done| / 2 && kept == done + r.hex
    ensures r.hex != "" || r.out == [] <==> |kept| == 0 || |kept| % 2 == 1
    ensures r.hex == "" ==> kept == done
  {
    Parity(|done|, |r.hex|);
  }

  lemma Parity(n: nat, m: nat)
    requires n % 2 == 0 && m <= 1
    ensures (n + m) % 2 == m
    ensures n / 2 == 0 <==> n == 0
  {
  }

  // ---- labelled multi-frame lines ----

  lemma {:induction false} RunAppend(a: Acc, s: string, t: string)
    requires AllHex(a.hex)
    ensures Run(a, s + t) == Run(Run(a, s), t)
  {
    if t == "" {
      assert s + t == s;
    } else {
      assert (s + t)[..|s + t| - 1] == s + t[..|t| - 1];
      RunAppend(a, s, t[..|t| - 1]);
    }
  }

  // With no digit pending, what was decoded before does not matter.
  lemma {:induction false} RunShift(out: seq<byte>, s: string)
    ensures Run(Acc("", out), s) == Acc(Run(START, s).hex, out + Run(START, s).out)
  {
    if s == "" {
      assert out + [] == out;
    } else {
      var s' := s[..|s| - 1];
      RunShift(out, s');
      var a := Run(START, s');
      var n := |a.hex| / 2 * 2;
      Assoc(out, a.out, PairBytes(a.hex[..n]));
    }
  }

  lemma {:induction false} RunDigits(a: Acc, digits: string)
    requires AllHex(digits) && AllHex(a.hex)
    ensures Run(a, digits).out == a.out
  {
    if digits != "" {
      RunDigits(a, digits[..|digits| - 1]);
    }
  }

  lemma RunLabel(out: seq<byte>, tag: string)
    requires AllHex(tag)
    ensures Run(Acc("", out), tag + ":") == Acc("", out)
  {
    RunDigits(Acc("", out), tag);
    var s := tag + ":";
    assert s[..|s| - 1] == tag && s[|s| - 1] == ':';
  }

  datatype Line = Line(tag: string, body: string)

  // A label of hex digits, and a body without ':' spelling whole bytes.
  predicate IsLine(l: Line) {
    AllHex(l.tag) && Lacks(l.body, ':') && |Kept(l.body)| % 2 == 0
  }

  function LinesText(lines: seq<Line>): string {
    if lines == [] then ""
    else LinesText(lines[..|lines| - 1]) +
         (lines[|lines| - 1].tag + ":" + (lines[|lines| - 1].body + "\r"))
  }

  function Payload(lines: seq<Line>): seq<byte>
  {
    if lines == [] then [] else Payload(lines[..|lines| - 1]) + PairBytes(Kept(lines[|lines| - 1].body))
  }

  lemma RunBody(out: seq<byte>, body: string)
    requires Lacks(body, ':') && |Kept(body)| % 2 == 0
    ensures Run(Acc("", out), body + "\r") == Acc("", out + PairBytes(Kept(body)))
  {
    var a := Run(START, body);
    var before := RunSpells(body);
    var done := FlushSpells(a, before);
    assert Flush(a).hex == "" && done + "" == done;
    assert (body + "\r")[..|body|] == body;
    RunShift(out, body + "\r");
  }

  /** Line labels are never taken for data: any number of labelled lines decodes to the bodies' bytes in order. */
  lemma {:induction false} LabelsAreDropped(lines: seq<Line>)
    requires forall l :: l in lines ==> IsLine(l)
    ensures Run(START, LinesText(lines)) == Acc("", Payload(lines))
  {
    if lines != [] {
      var init, l := lines[..|lines| - 1], lines[|lines| - 1];
      assert IsLine(l) by {
        assert l in lines;
      }
      forall x | x in init
        ensures IsLine(x)
      {
        assert x in lines;
      }
      LabelsAreDropped(init);
      RunLabel(Payload(init), l.tag);
      RunBody(Payload(init), l.body);
      RunAppend(START, LinesText(init), l.tag + ":" + (l.body + "\r"));
      RunAppend(Acc("", Payload(init)), l.tag + ":", l.body + "\r");
    }
  }

  // ======== the whole response ========

  predicate HasError(s: string) {
    exists e :: e in ERRORS && Find(UpperAll(s), e) != -1
  }

  function BeforePrompt(response: string): string {
    response[..IndexOf(response, '>')]
  }

  // Specification, given the text left by banner stripping.
  function Decode(stripped: string): Option<seq<byte>> {
    if stripped == "" || HasError(stripped) then None else Result(Run(START, stripped))
  }

  /** The whole parser: the prompt is cut off, the one possible stripping is decoded. */
  method ParseObd2Response(response: string, order: seq<string>) returns (r: Option<seq<byte>>)
    requires forall p :: p in order <==> p in BANNERS
    ensures exists s :: IsStripped(BeforePrompt(response), s)
    ensures forall s :: IsStripped(BeforePrompt(response), s) ==> r == Decode(s)
  {
    var cleaned := BeforePrompt(response);
    if response == "" || cleaned == "" || cleaned == ">" {
      NoBannerInShort(cleaned);
      OnlyStripping(cleaned, cleaned);
      return None;
    }
    var stripped := StripInfoPrefixes(cleaned, order);
    OnlyStripping(cleaned, stripped);
    if stripped == "" || HasError(stripped) {
      return None;
    }
    r := Accumulate(stripped);
  }

  lemma OnlyStripping(s: string, r: string)
    requires IsStripped(s, r)
    ensures forall r' :: IsStripped(s, r') ==> r' == r
  {
    forall r' | IsStripped(s, r')
      ensures r' == r
    {
      StrippingIsDetermined(s, r, r');
    }
  }

  lemma NoBannerInShort(s: string)
    requires |s| < 2
    ensures IsStripped(s, s)
  {
    forall i: nat
      ensures !BannerAt(s, i)
    {
      if BannerAt(s, i) {
        var p :| p in BANNERS && OccursAt(s, p, i);
        BannerHeads(s, p, i);
      }
    }
  }

  // Only hex digits and characters that are neither letters nor structure.
  predicate IsPlain(s: string) {
    forall i :: 0 <= i < |s| ==> IsHex(s[i]) || !IsLetter(s[i])
  }

  // A hex rendering of bs: its digits in order, in either case, separated in any way.
  predicate Renders(s: string, bs: seq<byte>) {
    IsPlain(s) && Lacks(s, ':') && Lacks(s, '>') && Kept(s) == HexBytes(bs)
  }

  lemma OccursLetter(s: string, p: string, i: nat, k: nat)
    requires OccursAt(s, p, i) && k < |p|
    ensures s[i + k] == p[k]
  {
    assert s[i..i + |p|][k] == s[i + k];
  }

  // Every error message has a letter that is no hex digit.
  lemma ErrorLetter(e: string) returns (k: nat)
    requires e in ERRORS
    ensures k < |e| && IsLetter(e[k]) && !IsHex(e[k])
  {
    k := if !IsHex(e[0]) then 0 else if !IsHex(e[1]) then 1 else 2;
  }

  lemma PlainHasNoError(s: string)
    requires IsPlain(s)
    ensures !HasError(s)
  {
    var u := UpperAll(s);
    forall e | e in ERRORS
      ensures Find(u, e) == -1
    {
      var i := Find(u, e);
      if i != -1 {
        var k := ErrorLetter(e);
        OccursLetter(u, e, i, k);
      }
    }
  }

  lemma {:induction false} KeptAppend(a: string, b: string)
    ensures Kept(a + b) == Kept(a) + Kept(b)
  {
    if b == "" {
      assert a + b == a;
    } else {
      assert (a + b)[..|a + b| - 1] == a + b[..|b| - 1];
      KeptAppend(a, b[..|b| - 1]);
    }
  }

  // Leading separators hold no digit.
  lemma {:induction false} RendersTrimmed(s: string, bs: seq<byte>)
    requires Renders(s, bs)
    ensures Renders(TrimLeft(s, SEPARATORS), bs)
  {
    if s != "" && s[0] in SEPARATORS {
      assert s == s[..1] + s[1..];
      KeptAppend(s[..1], s[1..]);
      assert s[..1][..0] == "" && Kept(s[..1]) == "";
      RendersTrimmed(s[1..], bs);
    }
  }

  lemma RenderingHasNoBanner(s: string, i: nat)
    requires IsPlain(s)
    ensures !BannerAt(s, i)
  {
    if BannerAt(s, i) {
      var p :| p in BANNERS && OccursAt(s, p, i);
      BannerHeads(s, p, i);
    }
  }

  // Behind at most one banner, a rendering has none of its own.
  lemma StripRendering(banner: string, s: string, bs: seq<byte>, r: string)
    requires banner == "" || banner in BANNERS
    requires Renders(s, bs) && IsStripped(banner + s, r)
    ensures Renders(r, bs)
  {
    var t := banner + s;
    if banner == "" {
      assert t == s;
      forall i: nat
        ensures !BannerAt(s, i)
      {
        RenderingHasNoBanner(s, i);
      }
    } else {
      StripBanner(banner, s, r);
      RendersTrimmed(s, bs);
    }
  }

  lemma StripBanner(banner: string, s: string, r: string)
    requires banner in BANNERS && IsStripped(banner + s, r)
    ensures r == TrimLeft(s, SEPARATORS)
  {
    var t := banner + s;
    assert OccursAt(t, banner, 0) && t[0 + |banner|..] == s;
    assert BannerAt(t, 0) && StripsAt(t, TrimLeft(s, SEPARATORS), banner, 0);
    assert IsStripped(t, TrimLeft(s, SEPARATORS));
    StrippingIsDetermined(t, r, TrimLeft(s, SEPARATORS));
  }

  lemma BannerLacksPrompt(banner: string, s: string)
    requires banner == "" || banner in BANNERS
    requires Lacks(s, '>')
    ensures Lacks(banner + s, '>')
  {
    if banner != "" {
      assert banner == BANNERS[0] || banner == BANNERS[1] || banner == BANNERS[2];
    }
    assert Lacks(banner, '>');
  }

  lemma PromptCut(text: string, tail: string)
    requires Lacks(text, '>') && (tail == "" || tail[0] == '>')
    ensures BeforePrompt(text + tail) == text
  {
    var t := text + tail;
    assert forall k :: 0 <= k < |text| ==> t[k] == text[k];
    assert tail != "" ==> t[|text|] == '>';
    assert IndexOf(t, '>') == |text|;
  }

  lemma DecodeRendering(s: string, bs: seq<byte>)
    requires Renders(s, bs) && bs != []
    ensures Decode(s) == Some(bs)
  {
    PlainHasNoError(s);
    HexBytesRoundTrip(bs);
    AccumulatorPairsDigits(s);
    assert s != "";
  }

  /** Any hex rendering of a non-empty byte string, behind any banner and before any prompt, decodes to exactly
      those bytes, whatever order the banners are tried in. */
  lemma RenderingRoundTrip(banner: string, s: string, tail: string, bs: seq<byte>, stripped: string)
    requires banner in ["", "SEARCHING", "BUSINIT", "OK"]
    requires Renders(s, bs) && bs != []
    requires tail == "" || tail[0] == '>'
    requires IsStripped(BeforePrompt(banner + s + tail), stripped)
    ensures Decode(stripped) == Some(bs)
  {
    BannerLacksPrompt(banner, s);
    PromptCut(banner + s, tail);
    StripRendering(banner, s, bs, stripped);
    DecodeRendering(stripped, bs);
  }

  lemma UpperAllAppend(a: string, b: string)
    ensures UpperAll(a + b) == UpperAll(a) + UpperAll(b)
  {
  }

  /** An error the adapter reports, in any case and anywhere in the text, is never decoded: whatever the digits
      around it, the answer is that there is no data. */
  lemma ErrorTextIsRefused(a: string, error: string, b: string)
    requires UpperAll(error) in ["NO DATA", "ERROR", "STOPPED", "UNABLE TO CONNECT", "BUS ERROR", "BUFFER FULL",
                                 "CAN ERROR"]
    ensures Decode(a + error + b) == None
  {
    var s := a + error + b;
    UpperAllAppend(a + error, b);
    UpperAllAppend(a, error);
    var u := UpperAll(s);
    assert u[|a|..|a| + |error|] == UpperAll(error);
    FoundAt(u, UpperAll(error), |a|);
    assert UpperAll(error) in ERRORS && Find(u, UpperAll(error)) != -1;
  }

  /** Without ':' a text decodes if and only if it names no error and holds an even, non-zero number of hex digits,
      and then to the bytes they spell. */
  lemma DecodeExactly(s: string)
    requires Lacks(s, ':')
    ensures var named := exists e :: e in ["NO DATA", "ERROR", "STOPPED", "UNABLE TO CONNECT", "BUS ERROR",
                                           "BUFFER FULL", "CAN ERROR"] && Contains(UpperAll(s), e);
      Decode(s) ==
        if named || |Kept(s)| == 0 || |Kept(s)| % 2 == 1 then None else Some(PairBytes(Kept(s)))
  {
    AccumulatorPairsDigits(s);
    assert forall e :: Contains(UpperAll(s), e) <==> Find(UpperAll(s), e) != -1;
  }
}
