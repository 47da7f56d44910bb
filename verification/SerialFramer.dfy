/** The serial command-line framer: bytes in, complete lines out, with an overflow guard. */
module SerialFramer {
  import opened Text

  const CR := '\r'

  // The pending line and the lines dispatched so far.
  datatype Framed = Framed(pending: string, lines: seq<string>)

  function FrameByte(f: Framed, c: char, maxLen: nat): Framed {
    if IsEol(c) then Framed("", f.lines + if f.pending == "" then [] else [f.pending])
    else if |f.pending| + 1 > maxLen then Framed("", f.lines)
    else Framed(f.pending + [c], f.lines)
  }

  function Frame(input: string, maxLen: nat): Framed {
    if input == "" then Framed("", []) else FrameByte(Frame(input[..|input| - 1], maxLen), input[|input| - 1], maxLen)
  }

  class SerialCommandFramer {
    const maxLen: nat
    var buffer: string
    var dispatched: seq<string>

    constructor (maxLen: nat)
      ensures this.maxLen == maxLen && buffer == "" && dispatched == []
    {
      this.maxLen := maxLen;
      buffer, dispatched := "", [];
    }

    method HandleByte(c: char)
      modifies this
      ensures Framed(buffer, dispatched) == FrameByte(old(Framed(buffer, dispatched)), c, maxLen)
    {
      if c == '\r' || c == '\n' {
        if buffer != "" {
          dispatched := dispatched + [buffer];
          buffer := "";
        }
        return;
      }
      buffer := buffer + [c];
      if |buffer| > maxLen {
        buffer := "";
      }
    }

    // Consumes the bytes available now; `before` is everything drained earlier.
    method Drain(ghost before: string, available: string)
      requires Framed(buffer, dispatched) == Frame(before, maxLen)
      modifies this
      ensures Framed(buffer, dispatched) == Frame(before + available, maxLen)
    {
      var i := 0;
      assert before + available[..0] == before;
      while i < |available|
        invariant 0 <= i <= |available|
        invariant Framed(buffer, dispatched) == Frame(before + available[..i], maxLen)
      {
        var input := before + available[..i + 1];
        assert input[..|input| - 1] == before + available[..i];
        HandleByte(available[i]);
        i := i + 1;
      }
      assert before + available[..|available|] == before + available;
    }
  }

  // ---- the framer against a batch split ----

  // Both terminators read as CR.
  function Unified(input: string): string {
    seq(|input|, i requires 0 <= i < |input| => if input[i] == '\n' then CR else input[i])
  }

  // What is left of a length after every overflow took maxLen + 1 bytes.
  function LeftOver(n: nat, maxLen: nat): (r: nat)
    ensures r <= n && r <= maxLen
  {
    if n <= maxLen then n else LeftOver(n - (maxLen + 1), maxLen)
  }

  // What the overflow guard leaves of a line: its last LeftOver bytes.
  function Survivor(line: string, maxLen: nat): string {
    line[|line| - LeftOver(|line|, maxLen)..]
  }

  // The non-empty survivors, in order.
  function Survivors(lines: seq<string>, maxLen: nat): seq<string> {
    if lines == [] then [] else
      (if Survivor(lines[0], maxLen) == "" then [] else [Survivor(lines[0], maxLen)]) + Survivors(lines[1..], maxLen)
  }

  lemma {:induction false} SurvivorsAppend(a: seq<string>, b: seq<string>, maxLen: nat)
    ensures Survivors(a + b, maxLen) == Survivors(a, maxLen) + Survivors(b, maxLen)
  {
    if a == [] {
      assert a + b == b;
    } else {
      assert (a + b)[1..] == a[1..] + b;
      SurvivorsAppend(a[1..], b, maxLen);
    }
  }

  lemma AtLeast(d: int, m: nat)
    requires d >= 1
    ensures d * m >= m
  {
  }

  // A larger quotient outweighs any remainder.
  lemma Scale(a: int, b: int, m: nat)
    requires a > b
    ensures a * m >= b * m + m
  {
    AtLeast(a - b, m);
    assert (a - b) * m == a * m - b * m;
  }

  lemma ModIs(n: nat, m: nat, q: nat, r: nat)
    requires m > 0 && r < m && n == q * m + r
    ensures n % m == r
  {
    var q', r' := n / m, n % m;
    assert n == q' * m + r';
    if q > q' {
      Scale(q, q', m);
    } else if q < q' {
      Scale(q', q, m);
    }
  }

  /** The left-over length is the remainder modulo maxLen + 1. */
  lemma {:induction false} LeftOverIsRemainder(n: nat, maxLen: nat)
    ensures LeftOver(n, maxLen) == n % (maxLen + 1)
  {
    var m := maxLen + 1;
    if n < m {
      ModIs(n, m, 0, n);
    } else {
      LeftOverIsRemainder(n - m, maxLen);
      var q, r := (n - m) / m, (n - m) % m;
      assert n - m == q * m + r;
      assert n == (q + 1) * m + r;
      ModIs(n, m, q + 1, r);
    }
  }

  lemma {:induction false} LeftOverNext(n: nat, maxLen: nat)
    ensures LeftOver(n + 1, maxLen) == if LeftOver(n, maxLen) == maxLen then 0 else LeftOver(n, maxLen) + 1
  {
    if n > maxLen {
      LeftOverNext(n - (maxLen + 1), maxLen);
    }
  }

  lemma SurvivorPush(line: string, c: char, maxLen: nat)
    ensures var s := Survivor(line, maxLen);
      Survivor(line + [c], maxLen) == if |s| + 1 > maxLen then "" else s + [c]
  {
    LeftOverNext(|line|, maxLen);
  }

  lemma SurvivorsSnoc(lines: seq<string>, last: string, maxLen: nat)
    ensures Survivors(lines + [last], maxLen)
         == Survivors(lines, maxLen) + if Survivor(last, maxLen) == "" then [] else [Survivor(last, maxLen)]
  {
    var one := [last];
    SurvivorsAppend(lines, one, maxLen);
    assert one[1..] == [];
    assert Survivors(one, maxLen) == (if Survivor(last, maxLen) == "" then [] else [Survivor(last, maxLen)]) + [];
  }

  // The batch view: the surviving non-empty pieces, and what survives of the unfinished one.
  function Batch(text: string, maxLen: nat): Framed {
    Framed(Survivor(Rest(text, CR), maxLen), Survivors(Pieces(text, CR), maxLen))
  }

  lemma BatchStep(text: string, c: char, maxLen: nat)
    ensures Batch(text + [if IsEol(c) then CR else c], maxLen) == FrameByte(Batch(text, maxLen), c, maxLen)
  {
    var rest := Rest(text, CR);
    SplitSnoc(text, if IsEol(c) then CR else c, CR);
    if IsEol(c) {
      SurvivorsSnoc(Pieces(text, CR), rest, maxLen);
      assert Survivor([], maxLen) == "";
    } else {
      SurvivorPush(rest, c, maxLen);
    }
  }

  lemma UnifiedSnoc(before: string, c: char)
    ensures Unified(before + [c]) == Unified(before) + [if IsEol(c) then CR else c]
  {
  }

  /** Exactly which lines are dispatched, for every input and budget: split the input at CR and LF; of each
      piece only the part after the last overflow survives, and empty survivors are skipped. */
  lemma {:induction false} FramerExact(input: string, maxLen: nat)
    ensures Frame(input, maxLen) == Batch(Unified(input), maxLen)
  {
    if input == "" {
      assert Unified(input) == [];
      SplitNone<char>([], CR);
    } else {
      var before, c := input[..|input| - 1], input[|input| - 1];
      FramerExact(before, maxLen);
      BatchStep(Unified(before), c, maxLen);
      UnifiedSnoc(before, c);
      assert input == before + [c];
    }
  }

  lemma {:induction false} DispatchedLinesAreShort(input: string, maxLen: nat)
    ensures |Frame(input, maxLen).pending| <= maxLen
    ensures forall c :: c in Frame(input, maxLen).pending ==> !IsEol(c)
    ensures forall k :: 0 <= k < |Frame(input, maxLen).lines| ==>
      var line := Frame(input, maxLen).lines[k];
      line != "" && |line| <= maxLen && forall c :: c in line ==> !IsEol(c)
  {
    if input != "" {
      DispatchedLinesAreShort(input[..|input| - 1], maxLen);
    }
  }

  /** A terminated line within the budget is dispatched verbatim. */
  lemma {:induction false} ShortLineVerbatim(line: string, maxLen: nat)
    requires |line| <= maxLen && forall c :: c in line ==> !IsEol(c)
    ensures Frame(line, maxLen) == Framed(line, [])
    ensures line != "" ==> Frame(line + [CR], maxLen) == Framed("", [line])
  {
    if line != "" {
      var before := line[..|line| - 1];
      ShortLineVerbatim(before, maxLen);
      assert line == before + [line[|line| - 1]];
      assert line[|line| - 1] in line;
      assert (line + [CR])[..|line|] == line;
    }
  }
}
