/** Regenerating the marked blocks of a properties file from a manifest. */
module SonarConfig {
  import opened Text
  import opened Wrappers

  const BEGIN_TAG := "# @GENERATED@ "
  const BEGIN_RULE := "do not edit below "
  const BEGIN_SOURCE := "\U{2014} derived from coverage-manifest.toml"
  const BEGIN := BEGIN_TAG + (BEGIN_RULE + BEGIN_SOURCE)
  const END := "# @END@"

  // The keys the generator owns, in its order; a key is its position here.
  const OWNED_KEYS: seq<string> :=
    ["sonar.sources", "sonar.exclusions", "sonar.coverage.exclusions", "sonar.cpp.file.suffixes",
     "sonar.cfamily.compile-commands"]

  const KEYS: nat := 5

  type Key = k: nat | k < KEYS

  function Name(k: Key): string {
    OWNED_KEYS[k]
  }

  const WS: set<char> :=
    {' ', '\t', '\n', '\r', '\U{0B}', '\U{0C}', '\U{1C}', '\U{1D}', '\U{1E}', '\U{1F}'}

  // The manifest's values.
  type Wanted = map<Key, string>

  // ======== lines ========

  // The lines of a text, each with its newline; only the last can lack one.
  function ReadLines(s: string): seq<string>
    decreases |s|
  {
    var i := IndexOf(s, '\n');
    if s == "" then [] else if i == |s| then [s] else [s[..i + 1]] + ReadLines(s[i + 1..])
  }

  predicate IsLine(l: string) {
    l != "" && l[|l| - 1] == '\n' && Lacks(l[..|l| - 1], '\n')
  }

  predicate IsOpen(l: string) {
    l != "" && Lacks(l, '\n')
  }

  // What reading a file can give.
  predicate AreLines(lines: seq<string>) {
    forall i :: 0 <= i < |lines| ==> IsLine(lines[i]) || (i == |lines| - 1 && IsOpen(lines[i]))
  }

  predicate Ends(s: string) {
    s == "" || s[|s| - 1] == '\n'
  }

  lemma {:induction false} ReadLinesAreLines(s: string)
    ensures AreLines(ReadLines(s))
    decreases |s|
  {
    var i := IndexOf(s, '\n');
    if i < |s| {
      ReadLinesAreLines(s[i + 1..]);
      assert s[..i + 1][..i] == s[..i];
      assert IsLine(s[..i + 1]);
    }
  }

  lemma ReadFirst(line: string, t: string)
    requires IsLine(line)
    ensures ReadLines(line + t) == [line] + ReadLines(t)
  {
    var s, n := line + t, |line|;
    assert forall k :: 0 <= k < n - 1 ==> s[k] == line[..n - 1][k];
    assert s[n - 1] == '\n';
    assert IndexOf(s, '\n') == n - 1;
    assert s[..n] == line && s[n..] == t;
  }

  lemma ReadOne(line: string)
    requires IsLine(line) || IsOpen(line)
    ensures ReadLines(line) == [line]
  {
    if IsLine(line) {
      ReadFirst(line, "");
      assert line + "" == line;
    }
  }

  lemma {:induction false} ReadAppend(a: string, b: string)
    requires Ends(a)
    ensures ReadLines(a + b) == ReadLines(a) + ReadLines(b)
    decreases |a|
  {
    if a == "" {
      assert a + b == b;
    } else {
      var head, tail := FirstCut(a, '\n');
      assert a == (head + ['\n']) + tail;
      var line := head + ['\n'];
      assert line[..|line| - 1] == head;
      ReadFirst(line, tail);
      ReadFirst(line, tail + b);
      assert tail != "" ==> tail[|tail| - 1] == a[|a| - 1];
      Assoc(line, tail, b);
      ReadAppend(tail, b);
      Assoc([line], ReadLines(tail), ReadLines(b));
    }
  }

  // ======== classification ========

  predicate IsBegin(line: string) {
    StartsWith(TrimLeft(line, WS), BEGIN)
  }

  predicate IsEnd(line: string) {
    StartsWith(TrimLeft(line, WS), END)
  }

  function KeyFrom(s: string, i: nat): Option<Key>
    requires i <= KEYS
    decreases KEYS - i
  {
    if i == KEYS then None
    else if StartsWith(s, Name(i) + "=") then Some(i)
    else KeyFrom(s, i + 1)
  }

  // The owned key a line assigns.
  function KeyOf(line: string): Option<Key> {
    KeyFrom(TrimLeft(line, WS), 0)
  }

  lemma PrefixChar(s: string, p: string, i: nat)
    requires StartsWith(s, p) && i < |p|
    ensures s[i] == p[i]
  {
    assert s[..|p|][i] == s[i];
  }

  lemma NotBoth(line: string)
    ensures !(IsBegin(line) && IsEnd(line))
  {
    var s := TrimLeft(line, WS);
    if IsBegin(line) {
      PrefixChar(s, BEGIN, 3);
      assert BEGIN[3] == 'G' && END[3] == 'E';
      if IsEnd(line) {
        PrefixChar(s, END, 3);
      }
    }
  }

  lemma KeyChars(k: Key)
    ensures |Name(k)| > 3 && Name(k)[0] == 's' && Lacks(Name(k), '=') && Lacks(Name(k), '\n')
  {
    assert k == 0 || k == 1 || k == 2 || k == 3 || k == 4;
  }

  // A line assigns at most one key: the text before its first '='.
  lemma KeyUnique(s: string, k: Key, k': Key)
    requires StartsWith(s, Name(k) + "=") && StartsWith(s, Name(k') + "=")
    ensures k == k'
  {
    KeyLength(s, k);
    KeyLength(s, k');
    assert |Name(0)| == 13 && |Name(1)| == 16 && |Name(2)| == 25 && |Name(3)| == 23 && |Name(4)| == 30;
  }

  lemma KeyLength(s: string, k: Key)
    requires StartsWith(s, Name(k) + "=")
    ensures IndexOf(s, '=') == |Name(k)|
  {
    KeyChars(k);
    var n := Name(k);
    var p := n + "=";
    assert forall i :: 0 <= i < |p| ==> s[i] == s[..|p|][i] == p[i];
    assert s[|n|] == '=';
    assert forall i :: 0 <= i < |n| ==> s[i] == n[i];
  }

  lemma {:induction false} KeyFromFinds(s: string, k: Key, i: nat)
    requires i <= k && StartsWith(s, Name(k) + "=")
    ensures KeyFrom(s, i) == Some(k)
    decreases k - i
  {
    if StartsWith(s, Name(i) + "=") {
      KeyUnique(s, k, i);
    } else {
      KeyFromFinds(s, k, i + 1);
    }
  }

  // ======== the regenerator ========

  function Block(k: Key, v: string): string {
    BEGIN + "\n" + (Name(k) + "=" + v + "\n") + (END + "\n")
  }

  // The first END line at or after j, or the number of lines.
  function BlockEnd(lines: seq<string>, j: nat): (r: nat)
    requires j <= |lines|
    ensures j <= r <= |lines|
    ensures forall i :: j <= i < r ==> !IsEnd(lines[i])
    ensures r < |lines| ==> IsEnd(lines[r])
    decreases |lines| - j
  {
    if j == |lines| || IsEnd(lines[j]) then j else BlockEnd(lines, j + 1)
  }

  // The first owned key assigned among the lines.
  function FirstKey(lines: seq<string>): Option<Key> {
    if lines == [] then None else if KeyOf(lines[0]).Some? then KeyOf(lines[0]) else FirstKey(lines[1..])
  }

  // How many lines the step at the first line consumes.
  function Taken(lines: seq<string>): (n: nat)
    requires lines != []
    ensures 0 < n <= |lines|
  {
    if IsBegin(lines[0]) then
      var e := BlockEnd(lines, 1);
      if e < |lines| then e + 1 else e
    else 1
  }

  // The key for which it writes a block, if it does.
  function Emits(lines: seq<string>, w: Wanted, placed: set<Key>): (r: Option<Key>)
    requires lines != []
    ensures r.Some? ==> r.value in w
  {
    var k := if IsBegin(lines[0]) then FirstKey(lines[1..BlockEnd(lines, 1)]) else KeyOf(lines[0]);
    if k.Some? && k.value in w && (IsBegin(lines[0]) || k.value !in placed) then k else None
  }

  function Piece(lines: seq<string>, w: Wanted, placed: set<Key>): string
    requires lines != []
  {
    match Emits(lines, w, placed)
    case Some(k) => Block(k, w[k])
    case None => if IsBegin(lines[0]) then "" else lines[0]
  }

  function Placed(lines: seq<string>, w: Wanted, placed: set<Key>): set<Key>
    requires lines != []
  {
    match Emits(lines, w, placed)
    case Some(k) => placed + {k}
    case None => placed
  }

  datatype Walked = Walked(text: string, placed: set<Key>)

  function Walk(lines: seq<string>, w: Wanted, placed: set<Key>): Walked
    decreases |lines|
  {
    if lines == [] then Walked("", placed)
    else
      var r := Walk(lines[Taken(lines)..], w, Placed(lines, w, placed));
      Walked(Piece(lines, w, placed) + r.text, r.placed)
  }

  // Blocks for the wanted keys from the i-th on that have no place yet.
  function Missing(w: Wanted, placed: set<Key>, i: nat): string
    requires i <= KEYS
    decreases KEYS - i
  {
    if i == KEYS then ""
    else
      if i in w && i !in placed then "\n" + Block(i, w[i]) + Missing(w, placed, i + 1)
      else Missing(w, placed, i + 1)
  }

  function Finish(lines: seq<string>, w: Wanted, placed: set<Key>): string {
    var r := Walk(lines, w, placed);
    r.text + Missing(w, r.placed, 0)
  }

  /** Specification of one regeneration. */
  function Regenerate(text: string, w: Wanted): string {
    Finish(ReadLines(text), w, {})
  }

  lemma FinishStep(lines: seq<string>, w: Wanted, placed: set<Key>)
    requires lines != []
    ensures Finish(lines, w, placed) ==
      Piece(lines, w, placed) + Finish(lines[Taken(lines)..], w, Placed(lines, w, placed))
  {
    var r := Walk(lines[Taken(lines)..], w, Placed(lines, w, placed));
    Assoc(Piece(lines, w, placed), r.text, Missing(w, r.placed, 0));
  }

  // The block's inner lines, scanned for the key and the end.
  method ScanBlock(original: seq<string>, i: nat) returns (j: nat, key: Option<Key>)
    requires i < |original|
    ensures j == i + 1 + BlockEnd(original[i + 1..], 0) && j <= |original|
    ensures key == FirstKey(original[i + 1..j])
  {
    j, key := i + 1, None;
    var inner := original[i + 1..];
    assert inner[0..] == inner;
    while j < |original| && !IsEnd(original[j])
      invariant i + 1 <= j <= |original|
      invariant BlockEnd(inner, j - i - 1) == BlockEnd(inner, 0)
      invariant key == FirstKey(original[i + 1..j])
    {
      assert inner[j - i - 1] == original[j];
      FirstKeySnoc(original[i + 1..j], original[j]);
      assert original[i + 1..j] + [original[j]] == original[i + 1..j + 1];
      if key == None {
        key := KeyOf(original[j]);
      }
      j := j + 1;
    }
    if j < |original| {
      assert inner[j - i - 1] == original[j];
    }
  }

  lemma {:induction false} FirstKeySnoc(lines: seq<string>, l: string)
    ensures FirstKey(lines + [l]) == if FirstKey(lines).Some? then FirstKey(lines) else KeyOf(l)
  {
    if lines == [] {
      assert lines + [l] == [l];
      assert FirstKey([l]) == if KeyOf(l).Some? then KeyOf(l) else FirstKey([]);
    } else {
      assert (lines + [l])[1..] == lines[1..] + [l];
      FirstKeySnoc(lines[1..], l);
    }
  }

  lemma {:induction false} BlockEndShift(lines: seq<string>, i: nat, j: nat)
    requires i <= j <= |lines|
    ensures BlockEnd(lines, j) == i + BlockEnd(lines[i..], j - i)
    decreases |lines| - j
  {
    if j < |lines| && !IsEnd(lines[j]) {
      BlockEndShift(lines, i, j + 1);
    }
  }

  // What the index-driven loop needs to know about one block.
  lemma BlockStep(original: seq<string>, i: nat, j: nat)
    requires i < |original| && IsBegin(original[i])
    requires j == i + 1 + BlockEnd(original[i + 1..], 0) && j <= |original|
    ensures var rest := original[i..];
      && rest[1..BlockEnd(rest, 1)] == original[i + 1..j]
      && rest[Taken(rest)..] == original[if j < |original| then j + 1 else j..]
  {
    var rest := original[i..];
    BlockEndShift(rest, 1, 1);
    assert rest[1..] == original[i + 1..];
  }

  // One step of the loop: what it decides, and that nothing else is left to do at this position.
  method Decide(original: seq<string>, i: nat, w: Wanted, placed: set<Key>)
    returns (emitted: Option<Key>, next: nat)
    requires i < |original|
    ensures emitted == Emits(original[i..], w, placed)
    ensures i < next <= |original| && original[next..] == original[i..][Taken(original[i..])..]
  {
    var line := original[i];
    emitted, next := None, i + 1;
    if IsBegin(line) {
      var j, key := ScanBlock(original, i);
      BlockStep(original, i, j);
      if key.Some? && key.value in w {
        emitted := key;
      }
      next := if j < |original| then j + 1 else j;
    } else {
      var key := KeyOf(line);
      if key.Some? && key.value in w && key.value !in placed {
        emitted := key;
      }
    }
  }

  // What is appended for one key.
  function Appended(k: Key, w: Wanted, placed: set<Key>): string {
    if k in w && k !in placed then "\n" + Block(k, w[k]) else ""
  }

  lemma MissingStep(r: string, w: Wanted, placed: set<Key>, i: nat)
    requires i < KEYS
    ensures r + Missing(w, placed, i) == r + Appended(i, w, placed) + Missing(w, placed, i + 1)
  {
    var a, m := Appended(i, w, placed), Missing(w, placed, i + 1);
    assert "" + m == m;
    Assoc(r, a, m);
  }

  method AppendMissing(text: string, w: Wanted, placed: set<Key>) returns (r: string)
    ensures r == text + Missing(w, placed, 0)
  {
    r := text;
    ghost var whole := text + Missing(w, placed, 0);
    var k := 0;
    while k < KEYS
      invariant 0 <= k <= KEYS
      invariant r + Missing(w, placed, k) == whole
    {
      MissingStep(r, w, placed, k);
      r := r + Appended(k, w, placed);
      k := k + 1;
    }
    assert r + "" == r;
  }

  /** The generator's loop over the file's lines. */
  method RegenerateText(original: seq<string>, wanted: Wanted) returns (text: string)
    ensures text == Finish(original, wanted, {})
  {
    text := "";
    var placed: set<Key> := {};
    var i := 0;
    ghost var whole := Finish(original, wanted, {});
    assert original[0..] == original && text + whole == whole;
    while i < |original|
      invariant 0 <= i <= |original|
      invariant text + Finish(original[i..], wanted, placed) == whole
    {
      ghost var rest := original[i..];
      ghost var piece := Piece(rest, wanted, placed);
      FinishStep(rest, wanted, placed);
      var emitted, next := Decide(original, i, wanted, placed);
      Assoc(text, piece, Finish(original[next..], wanted, Placed(rest, wanted, placed)));
      if emitted.Some? {
        text := text + Block(emitted.value, wanted[emitted.value]);
        placed := placed + {emitted.value};
      } else if IsBegin(original[i]) {
        assert text + "" == text;
      } else {
        text := text + original[i];
      }
      i := next;
    }
    FinishEmpty(wanted, placed);
    text := AppendMissing(text, wanted, placed);
  }

  lemma FinishEmpty(w: Wanted, placed: set<Key>)
    ensures Finish([], w, placed) == Missing(w, placed, 0)
  {
  }

  // ======== the second run ========

  // A run of lines whose every block is closed: the walk crosses its end at a line boundary of its own.
  predicate Sealed(lines: seq<string>)
    decreases |lines|
  {
    lines == [] || ((IsBegin(lines[0]) ==> BlockEnd(lines, 1) < |lines|) && Sealed(lines[Taken(lines)..]))
  }

  lemma {:induction false} LastEndSeals(lines: seq<string>)
    requires lines != [] ==> IsEnd(lines[|lines| - 1])
    ensures Sealed(lines)
    decreases |lines|
  {
    if lines != [] {
      if IsBegin(lines[0]) && |lines| == 1 {
        NotBoth(lines[0]);
      }
      var rest := lines[Taken(lines)..];
      assert rest != [] ==> rest[|rest| - 1] == lines[|lines| - 1];
      LastEndSeals(rest);
    }
  }

  lemma {:induction false} BlockEndPrefix(a: seq<string>, b: seq<string>, j: nat)
    requires j <= |a| && BlockEnd(a, j) < |a|
    ensures BlockEnd(a + b, j) == BlockEnd(a, j)
    decreases |a| - j
  {
    if !IsEnd(a[j]) {
      BlockEndPrefix(a, b, j + 1);
    }
  }

  // The first step inside a sealed run does not see what follows it.
  lemma SealedTaken(a: seq<string>, b: seq<string>)
    requires a != [] && Sealed(a)
    ensures Taken(a + b) == Taken(a) && (a + b)[Taken(a)..] == a[Taken(a)..] + b
    ensures IsBegin(a[0]) ==> BlockEnd(a + b, 1) == BlockEnd(a, 1) < |a|
  {
    if IsBegin(a[0]) {
      BlockEndPrefix(a, b, 1);
    }
  }

  lemma SlicePrefix(a: seq<string>, b: seq<string>, i: nat, j: nat)
    requires i <= j <= |a|
    ensures (a + b)[i..j] == a[i..j]
  {
  }

  lemma SealedEmits(a: seq<string>, b: seq<string>, w: Wanted, placed: set<Key>)
    requires a != [] && Sealed(a)
    ensures Emits(a + b, w, placed) == Emits(a, w, placed)
  {
    SealedTaken(a, b);
    SlicePrefix(a, b, 1, BlockEnd(a, 1));
  }

  lemma {:induction false} FinishSealed(a: seq<string>, b: seq<string>, w: Wanted, placed: set<Key>)
    requires Sealed(a)
    ensures Finish(a + b, w, placed) == Walk(a, w, placed).text + Finish(b, w, Walk(a, w, placed).placed)
    ensures placed <= Walk(a, w, placed).placed
    decreases |a|
  {
    if a == [] {
      assert a + b == b;
      assert "" + Finish(b, w, placed) == Finish(b, w, placed);
    } else {
      SealedTaken(a, b);
      SealedEmits(a, b, w, placed);
      FinishStep(a + b, w, placed);
      var tail, p := a[Taken(a)..], Placed(a, w, placed);
      FinishSealed(tail, b, w, p);
      Assoc(Piece(a, w, placed), Walk(tail, w, p).text, Finish(b, w, Walk(tail, w, p).placed));
    }
  }

  // Only generated blocks that would be dropped.
  predicate Vanishes(lines: seq<string>, w: Wanted)
    decreases |lines|
  {
    lines == [] ||
    (IsBegin(lines[0]) && Emits(lines, w, {}) == None && Vanishes(lines[Taken(lines)..], w))
  }

  lemma {:induction false} VanishesExactly(lines: seq<string>, w: Wanted, placed: set<Key>)
    requires forall i :: 0 <= i < |lines| ==> lines[i] != ""
    ensures Walk(lines, w, placed).text == "" <==> Vanishes(lines, w)
    ensures Vanishes(lines, w) ==> Walk(lines, w, placed).placed == placed
    decreases |lines|
  {
    if lines != [] {
      var rest := lines[Taken(lines)..];
      VanishesExactly(rest, w, Placed(lines, w, placed));
    }
  }

  // What a second run finds behind the first END line of the block written for a value.
  function Leftover(k: Key, v: string): seq<string> {
    var lines := ReadLines(Name(k) + "=" + v + "\n") + [END + "\n"];
    var e := BlockEnd(lines, 1);
    if e < |lines| then lines[e + 1..] else []
  }

  /** The guard on a manifest value: none of its lines after the first closes the block early, or what then
      spills out of the block is made of unwanted blocks only. */
  predicate IsStable(k: Key, w: Wanted)
    requires k in w
  {
    Vanishes(Leftover(k, w[k]), w)
  }

  lemma LacksJoin(a: string, b: string, d: char)
    requires Lacks(a, d) && Lacks(b, d)
    ensures Lacks(a + b, d)
  {
  }

  lemma BeginLacksNewline()
    ensures Lacks(BEGIN, '\n')
  {
    assert Lacks(BEGIN_TAG, '\n');
    assert Lacks(BEGIN_RULE, '\n');
    assert Lacks(BEGIN_SOURCE, '\n');
    LacksJoin(BEGIN_RULE, BEGIN_SOURCE, '\n');
    LacksJoin(BEGIN_TAG, BEGIN_RULE + BEGIN_SOURCE, '\n');
  }

  lemma MarkerLines()
    ensures IsLine(BEGIN + "\n") && IsLine(END + "\n")
    ensures IsBegin(BEGIN + "\n") && IsEnd(END + "\n")
  {
    assert BEGIN[0] == '#' && END[0] == '#';
    var b := BEGIN + "\n";
    assert b[0] == '#' && TrimLeft(b, WS) == b && b[..|BEGIN|] == BEGIN;
    var e := END + "\n";
    assert e[0] == '#' && TrimLeft(e, WS) == e && e[..|END|] == END;
    assert b[..|b| - 1] == BEGIN && e[..|e| - 1] == END;
    BeginLacksNewline();
  }

  // The first line of an assignment is recognised as such.
  lemma AssignmentLine(k: Key, v: string)
    ensures var lines := ReadLines(Name(k) + "=" + v + "\n");
      lines != [] && KeyOf(lines[0]) == Some(k) && !IsEnd(lines[0]) && !IsBegin(lines[0])
  {
    KeyChars(k);
    var p := Name(k) + "=";
    LacksJoin(Name(k), "=", '\n');
    FirstLineStarts(p, v);
    var line := ReadLines(p + v + "\n")[0];
    assert line[0] == line[..|p|][0] == 's' && TrimLeft(line, WS) == line;
    KeyFromFinds(line, k, 0);
    assert BEGIN[0] == '#' && END[0] == '#';
  }

  lemma FirstLineStarts(p: string, v: string)
    requires p != "" && Lacks(p, '\n')
    ensures var lines := ReadLines(p + v + "\n"); lines != [] && StartsWith(lines[0], p)
  {
    var s := p + v + "\n";
    var i := IndexOf(s, '\n');
    assert s[|s| - 1] == '\n';
    assert forall x :: 0 <= x < |p| ==> s[x] == p[x];
    assert i >= |p| && s[..i + 1][..|p|] == p;
  }

  function BlockLines(k: Key, v: string): seq<string> {
    [BEGIN + "\n"] + (ReadLines(Name(k) + "=" + v + "\n") + [END + "\n"])
  }

  lemma Regroup<T>(x: seq<T>, y: seq<T>, z: seq<T>, t: seq<T>)
    ensures x + y + z + t == x + (y + (z + t))
  {
  }

  lemma ReadBlock(k: Key, v: string, t: string)
    ensures ReadLines(Block(k, v) + t) == BlockLines(k, v) + ReadLines(t)
    ensures Ends(Block(k, v))
  {
    MarkerLines();
    var b, a, e := BEGIN + "\n", Name(k) + "=" + v + "\n", END + "\n";
    Regroup(b, a, e, t);
    ReadFirst(b, a + (e + t));
    ReadAppend(a, e + t);
    ReadFirst(e, t);
    Regroup([b], ReadLines(a), [e], ReadLines(t));
    Assoc([b], ReadLines(a), [e]);
  }

  lemma AroundCut(inner: seq<string>, tail: seq<string>, begin: string, e: nat)
    requires e < |inner|
    ensures var lines := [begin] + (inner + tail);
      lines[1..] == inner + tail && lines[1..e + 1] == inner[..e] && lines[e + 2..] == inner[e + 1..] + tail
  {
  }

  // Where a written block ends for a reader, whatever follows it.
  lemma InnerEnd(inner: seq<string>, tail: seq<string>, begin: string) returns (e: nat)
    requires inner != [] && !IsEnd(inner[0]) && IsEnd(inner[|inner| - 1])
    ensures 0 < e == BlockEnd(inner, 1) < |inner| && BlockEnd([begin] + (inner + tail), 1) == e + 1
  {
    EndExists(inner, 1);
    e := BlockEnd(inner, 1);
    assert BlockEnd(inner, 0) == e;
    BlockEndPrefix(inner, tail, 0);
    AroundCut(inner, tail, begin, e);
    BlockEndShift([begin] + (inner + tail), 1, 1);
  }

  // A second run's step at a written block.
  lemma BlockAgainStep(k: Key, w: Wanted, tail: seq<string>, placed: set<Key>)
    requires k in w
    ensures var lines := BlockLines(k, w[k]) + tail;
      && IsBegin(lines[0]) && Emits(lines, w, placed) == Some(k)
      && lines[Taken(lines)..] == Leftover(k, w[k]) + tail
  {
    MarkerLines();
    AssignmentLine(k, w[k]);
    var begin, inner := BEGIN + "\n", ReadLines(Name(k) + "=" + w[k] + "\n") + [END + "\n"];
    Assoc([begin], inner, tail);
    var e := InnerEnd(inner, tail, begin);
    AroundCut(inner, tail, begin, e);
    var lines := [begin] + (inner + tail);
    assert inner[..e][0] == inner[0];
    assert FirstKey(lines[1..BlockEnd(lines, 1)]) == Some(k);
  }

  lemma {:induction false} EndExists(lines: seq<string>, j: nat)
    requires j < |lines| && IsEnd(lines[|lines| - 1])
    ensures BlockEnd(lines, j) < |lines|
    decreases |lines| - j
  {
    if !IsEnd(lines[j]) {
      EndExists(lines, j + 1);
    }
  }

  // The leftover of a block: some lines, closed by the block's own END.
  lemma LeftoverLines(k: Key, v: string)
    ensures Sealed(Leftover(k, v))
    ensures forall i :: 0 <= i < |Leftover(k, v)| ==> Leftover(k, v)[i] != ""
  {
    MarkerLines();
    var a := Name(k) + "=" + v + "\n";
    var lines := ReadLines(a) + [END + "\n"];
    ReadLinesAreLines(a);
    assert forall i :: 0 <= i < |lines| ==> lines[i] != "";
    LastEndSeals(Leftover(k, v));
  }

  // What a second run makes of the lines that spilled out of a written block.
  function Spill(k: Key, w: Wanted, placed: set<Key>): Walked
    requires k in w
  {
    Walk(Leftover(k, w[k]), w, placed + {k})
  }

  lemma SpillFacts(k: Key, w: Wanted, placed: set<Key>)
    requires k in w
    ensures var s := Spill(k, w, placed);
      && placed + {k} <= s.placed && (s.text == "" <==> IsStable(k, w)) && (s.text == "" ==> s.placed == placed + {k})
  {
    LeftoverLines(k, w[k]);
    FinishSealed(Leftover(k, w[k]), [], w, placed + {k});
    VanishesExactly(Leftover(k, w[k]), w, placed + {k});
  }

  // A written block, read again: it is written again, behind it whatever spilled out of it.
  lemma BlockAgain(k: Key, w: Wanted, t: string, placed: set<Key>)
    requires k in w
    ensures Finish(ReadLines(Block(k, w[k]) + t), w, placed) ==
      Block(k, w[k]) + (Spill(k, w, placed).text + Finish(ReadLines(t), w, Spill(k, w, placed).placed))
  {
    var tail := ReadLines(t);
    ReadBlock(k, w[k], t);
    BlockAgainStep(k, w, tail, placed);
    FinishStep(BlockLines(k, w[k]) + tail, w, placed);
    LeftoverLines(k, w[k]);
    FinishSealed(Leftover(k, w[k]), tail, w, placed + {k});
  }

  // A line that is neither a marker nor to be adopted.
  predicate StaysAsIs(l: string, w: Wanted, placed: set<Key>) {
    !IsBegin(l) && (KeyOf(l).Some? && KeyOf(l).value in w ==> KeyOf(l).value in placed)
  }

  lemma VerbatimAgain(l: string, w: Wanted, t: string, placed: set<Key>)
    requires IsLine(l) && StaysAsIs(l, w, placed)
    ensures Finish(ReadLines(l + t), w, placed) == l + Finish(ReadLines(t), w, placed)
  {
    ReadFirst(l, t);
    var lines := [l] + ReadLines(t);
    FinishStep(lines, w, placed);
    assert lines[1..] == ReadLines(t);
  }

  ghost predicate AllStable(w: Wanted) {
    forall k :: k in w ==> IsStable(k, w)
  }

  ghost function UnstableKeys(w: Wanted): (bad: set<Key>)
    ensures forall k :: k in bad <==> k in w && !IsStable(k, w)
  {
    set k | k in w && !IsStable(k, w)
  }

  // How the output of a second run relates to that of the first: it never shrinks, it is the same when no
  // value is bad, and it grows when a bad value is written for a key not yet placed.
  ghost predicate Again(t: string, t': string, bad: set<Key>, placed: set<Key>) {
    && |t| <= |t'|
    && (bad == {} ==> t' == t)
    && (!(bad <= placed) ==> |t| < |t'|)
  }

  lemma AgainPrefix(l: string, t: string, t': string, bad: set<Key>, placed: set<Key>)
    requires Again(t, t', bad, placed)
    ensures Again(l + t, l + t', bad, placed)
  {
  }

  lemma AgainSpilled(spilled: string, t: string, t': string, k: Key, bad: set<Key>, placed: set<Key>,
                     after: set<Key>)
    requires spilled == "" <==> k !in bad
    requires spilled == "" ==> after == placed + {k}
    requires Again(t, t', bad, after)
    ensures Again(t, spilled + t', bad, placed)
  {
    if spilled == "" {
      assert spilled + t' == t';
      assert bad <= placed + {k} ==> bad <= placed;
    }
  }

  // A block written by the first run.
  lemma AgainBlock(k: Key, w: Wanted, t: string, bad: set<Key>, placed: set<Key>)
    requires k in w && bad == UnstableKeys(w)
    requires var after := Spill(k, w, placed).placed; Again(t, Finish(ReadLines(t), w, after), bad, after)
    ensures Again(Block(k, w[k]) + t, Finish(ReadLines(Block(k, w[k]) + t), w, placed), bad, placed)
  {
    var s := Spill(k, w, placed);
    var t' := Finish(ReadLines(t), w, s.placed);
    SpillFacts(k, w, placed);
    BlockAgain(k, w, t, placed);
    AgainSpilled(s.text, t, t', k, bad, placed, s.placed);
    AgainPrefix(Block(k, w[k]), t, s.text + t', bad, placed);
  }

  lemma AgainLine(l: string, w: Wanted, t: string, bad: set<Key>, placed: set<Key>)
    requires IsLine(l) && StaysAsIs(l, w, placed)
    requires Again(t, Finish(ReadLines(t), w, placed), bad, placed)
    ensures Again(l + t, Finish(ReadLines(l + t), w, placed), bad, placed)
  {
    VerbatimAgain(l, w, t, placed);
    AgainPrefix(l, t, Finish(ReadLines(t), w, placed), bad, placed);
  }

  // The appended part starts with a newline that stays; what follows it is read like any text.
  ghost predicate AppendedAgain(m: string, w: Wanted, bad: set<Key>, placed: set<Key>) {
    if m == "" then Finish([], w, placed) == "" && bad <= placed
    else m[0] == '\n' && Again(m[1..], Finish(ReadLines(m[1..]), w, placed), bad, placed)
  }

  lemma AppendedAsText(m: string, w: Wanted, bad: set<Key>, placed: set<Key>)
    requires AppendedAgain(m, w, bad, placed)
    ensures Again(m, Finish(ReadLines(m), w, placed), bad, placed)
  {
    if m != "" {
      NewlineStays(w, placed);
      assert m == "\n" + m[1..];
      AgainLine("\n", w, m[1..], bad, placed);
    }
  }

  lemma AppendedBlock(k: Key, w: Wanted, t: string, bad: set<Key>, placed: set<Key>)
    requires k in w && bad == UnstableKeys(w)
    requires AppendedAgain(t, w, bad, Spill(k, w, placed).placed)
    ensures AppendedAgain("\n" + Block(k, w[k]) + t, w, bad, placed)
  {
    AppendedAsText(t, w, bad, Spill(k, w, placed).placed);
    AgainBlock(k, w, t, bad, placed);
    NewlineFirst(Block(k, w[k]), t);
  }

  // Every wanted key before the i-th has its place.
  predicate PlacedBelow(w: Wanted, placed: set<Key>, i: nat) {
    forall k | 0 <= k < i && k < KEYS :: k in w ==> k in placed
  }

  lemma PlacedNext(w: Wanted, placed: set<Key>, after: set<Key>, i: Key)
    requires PlacedBelow(w, placed, i) && placed <= after && (i in w ==> i in after)
    ensures PlacedBelow(w, after, i + 1)
  {
  }

  lemma SpillPlaces(w: Wanted, placed: set<Key>, i: Key)
    requires PlacedBelow(w, placed, i) && i in w
    ensures PlacedBelow(w, Spill(i, w, placed).placed, i + 1) && placed <= Spill(i, w, placed).placed
  {
    SpillFacts(i, w, placed);
    PlacedNext(w, placed, Spill(i, w, placed).placed, i);
  }

  lemma NothingAppended(w: Wanted, bad: set<Key>, placed: set<Key>)
    requires PlacedBelow(w, placed, KEYS) && bad == UnstableKeys(w)
    ensures AppendedAgain("", w, bad, placed)
  {
    assert w.Keys <= placed;
    NothingMissing(w, placed, 0);
    FinishEmpty(w, placed);
  }

  // One more key in front of what is still appended.
  lemma OneMoreAgain(w: Wanted, bad: set<Key>, placed: set<Key>, placed': set<Key>, i: nat)
    requires i < KEYS && bad == UnstableKeys(w)
    requires AppendedAgain(Missing(w, placed, i + 1), w, bad,
                           if i in w && i !in placed then Spill(i, w, placed').placed else placed')
    ensures AppendedAgain(Missing(w, placed, i), w, bad, placed')
  {
    if i in w && i !in placed {
      AppendedBlock(i, w, Missing(w, placed, i + 1), bad, placed');
    }
  }

  lemma {:induction false} MissingAgain(w: Wanted, bad: set<Key>, placed: set<Key>, placed': set<Key>,
                                        i: nat)
    requires i <= KEYS && placed <= placed' && bad == UnstableKeys(w)
    requires PlacedBelow(w, placed', i)
    ensures AppendedAgain(Missing(w, placed, i), w, bad, placed')
    decreases KEYS - i
  {
    if i == KEYS {
      NothingAppended(w, bad, placed');
    } else if i in w && i !in placed {
      SpillPlaces(w, placed', i);
      MissingAgain(w, bad, placed, Spill(i, w, placed').placed, i + 1);
      OneMoreAgain(w, bad, placed, placed', i);
    } else {
      PlacedNext(w, placed', placed', i);
      MissingAgain(w, bad, placed, placed', i + 1);
      OneMoreAgain(w, bad, placed, placed', i);
    }
  }

  lemma NewlineFirst(a: string, b: string)
    ensures ("\n" + a + b)[0] == '\n' && ("\n" + a + b)[1..] == a + b
  {
  }

  lemma {:induction false} NothingMissing(w: Wanted, placed: set<Key>, i: nat)
    requires i <= KEYS
    requires w.Keys <= placed
    ensures Missing(w, placed, i) == ""
    decreases KEYS - i
  {
    if i < KEYS {
      NothingMissing(w, placed, i + 1);
    }
  }

  lemma NewlineStays(w: Wanted, placed: set<Key>)
    ensures IsLine("\n") && StaysAsIs("\n", w, placed)
  {
    assert TrimLeft("\n", WS) == "";
  }

  // ---- an unterminated last line ----

  lemma {:induction false} TrimTerminated(l: string)
    ensures TrimLeft(l + "\n", WS) == if TrimLeft(l, WS) == "" then "" else TrimLeft(l, WS) + "\n"
  {
    var t := l + "\n";
    if l == "" {
      assert t == "\n" && t[1..] == "";
    } else if l[0] in WS {
      assert t[1..] == l[1..] + "\n";
      TrimTerminated(l[1..]);
    }
  }

  lemma StartsTerminated(s: string, p: string)
    requires Lacks(p, '\n')
    ensures StartsWith(s + "\n", p) == StartsWith(s, p)
  {
    var t := s + "\n";
    if |p| <= |s| {
      assert t[..|p|] == s[..|p|];
    } else if |p| == |t| {
      assert t[..|p|][|s|] == '\n';
    }
  }

  lemma {:induction false} KeyTerminated(s: string, i: nat)
    requires i <= KEYS
    ensures KeyFrom(s + "\n", i) == KeyFrom(s, i)
    decreases KEYS - i
  {
    if i < KEYS {
      var k: Key := i;
      KeyChars(k);
      LacksJoin(Name(k), "=", '\n');
      StartsTerminated(s, Name(k) + "=");
      KeyTerminated(s, i + 1);
    }
  }

  // A newline at the end of a line does not change what it is taken for.
  lemma ClosedLineStays(l: string, w: Wanted, placed: set<Key>)
    ensures StaysAsIs(l + "\n", w, placed) == StaysAsIs(l, w, placed)
  {
    var s := TrimLeft(l, WS);
    TrimTerminated(l);
    if s != "" {
      BeginLacksNewline();
      StartsTerminated(s, BEGIN);
      KeyTerminated(s, 0);
    }
  }

  lemma OpenLineAlone(l: string, w: Wanted, placed: set<Key>)
    requires IsOpen(l) && StaysAsIs(l, w, placed)
    ensures Finish(ReadLines(l), w, placed) == l + Finish([], w, placed)
  {
    ReadOne(l);
    var lines := [l];
    FinishStep(lines, w, placed);
    assert lines[1..] == [];
  }

  lemma OpenLineClosed(l: string, w: Wanted, t: string, bad: set<Key>, placed: set<Key>)
    requires IsOpen(l) && StaysAsIs(l, w, placed)
    requires Again(t, Finish(ReadLines(t), w, placed), bad, placed)
    ensures Again(l + "\n" + t, Finish(ReadLines(l + "\n" + t), w, placed), bad, placed)
  {
    var line := l + "\n";
    assert line[..|line| - 1] == l;
    ClosedLineStays(l, w, placed);
    AgainLine(line, w, t, bad, placed);
  }

  lemma Rejoin(l: string, m: string)
    requires m != "" && m[0] == '\n'
    ensures l + "\n" + m[1..] == l + m
  {
  }

  // An open last line is completed by the appended part, if there is any.
  lemma OpenLineAgain(l: string, w: Wanted, m: string, bad: set<Key>, placed: set<Key>)
    requires IsOpen(l) && StaysAsIs(l, w, placed) && AppendedAgain(m, w, bad, placed)
    ensures Again(l + m, Finish(ReadLines(l + m), w, placed), bad, placed)
  {
    if m == "" {
      OpenLineAlone(l, w, placed);
      assert l + m == l;
    } else {
      Rejoin(l, m);
      OpenLineClosed(l, w, m[1..], bad, placed);
    }
  }

  // ---- the whole file ----

  lemma {:induction false} FinishAgain(lines: seq<string>, w: Wanted, bad: set<Key>, placed: set<Key>,
                                       placed': set<Key>)
    requires AreLines(lines) && placed <= placed' && bad == UnstableKeys(w)
    ensures var t := Finish(lines, w, placed); Again(t, Finish(ReadLines(t), w, placed'), bad, placed')
    decreases |lines|
  {
    if lines == [] {
      FinishEmpty(w, placed);
      MissingAgain(w, bad, placed, placed', 0);
      AppendedAsText(Missing(w, placed, 0), w, bad, placed');
    } else {
      FinishStep(lines, w, placed);
      var tail, l := lines[Taken(lines)..], lines[0];
      var t := Finish(tail, w, Placed(lines, w, placed));
      match Emits(lines, w, placed)
      case Some(k) =>
        SpillFacts(k, w, placed');
        FinishAgain(tail, w, bad, placed + {k}, Spill(k, w, placed').placed);
        AgainBlock(k, w, t, bad, placed');
      case None =>
        FinishAgain(tail, w, bad, placed, placed');
        if IsBegin(l) {
          assert "" + t == t;
        } else if IsLine(l) {
          AgainLine(l, w, t, bad, placed');
        } else {
          FinishEmpty(w, placed);
          MissingAgain(w, bad, placed, placed', 0);
          OpenLineAgain(l, w, t, bad, placed');
        }
    }
  }

  /** Regenerating a second time changes nothing, for any file and manifest, exactly when every manifest value
      is stable. */
  lemma RegenerationIsIdempotent(text: string, w: Wanted)
    ensures Regenerate(Regenerate(text, w), w) == Regenerate(text, w) <==> AllStable(w)
  {
    ReadLinesAreLines(text);
    var bad := UnstableKeys(w);
    FinishAgain(ReadLines(text), w, bad, {}, {});
    assert AllStable(w) <==> bad == {};
  }

  /** In particular a value without a newline is stable. */
  lemma OneLineValueIsStable(k: Key, w: Wanted)
    requires k in w && Lacks(w[k], '\n')
    ensures IsStable(k, w)
  {
    KeyChars(k);
    var a := Name(k) + "=" + w[k] + "\n";
    assert a[..|a| - 1] == Name(k) + "=" + w[k];
    assert IsLine(a);
    ReadOne(a);
    MarkerLines();
    EndsAtOnce(a, []);
  }

  lemma EndsAtOnce(first: string, rest: seq<string>)
    ensures var lines := [first] + [END + "\n"] + rest; BlockEnd(lines, 1) == 1 && lines[2..] == rest
  {
    MarkerLines();
  }

  lemma EndAlone(e: string, w: Wanted)
    requires IsEnd(e)
    ensures !Vanishes([e], w)
  {
    NotBoth(e);
  }

  lemma EndSpills(k: Key, first: string)
    requires Lacks(first, '\n')
    ensures Leftover(k, first + "\n" + END) == [END + "\n"]
  {
    KeyChars(k);
    MarkerLines();
    var a, e := Name(k) + "=" + first + "\n", END + "\n";
    assert a[..|a| - 1] == Name(k) + "=" + first;
    assert Name(k) + "=" + (first + "\n" + END) + "\n" == a + e;
    ReadFirst(a, e);
    ReadOne(e);
    EndsAtOnce(a, [e]);
  }

  /** A value whose second line is an END marker never is: each run spills one more END line. */
  lemma EndMarkerInValue(k: Key, first: string, w: Wanted)
    requires k in w && Lacks(first, '\n') && w[k] == first + "\n" + END
    ensures !IsStable(k, w)
  {
    EndSpills(k, first);
    MarkerLines();
    EndAlone(END + "\n", w);
  }

  // ======== what survives ========

  // The text outside generated blocks.
  function Outside(lines: seq<string>): string
    decreases |lines|
  {
    if lines == [] then ""
    else (if IsBegin(lines[0]) then "" else lines[0]) + Outside(lines[Taken(lines)..])
  }

  // The text outside generated blocks, less the assignments a regeneration adopts.
  function Kept(lines: seq<string>, w: Wanted, placed: set<Key>): string
    decreases |lines|
  {
    if lines == [] then ""
    else
      (if IsBegin(lines[0]) || Emits(lines, w, placed).Some? then "" else lines[0]) +
      Kept(lines[Taken(lines)..], w, Placed(lines, w, placed))
  }

  // One newline for each key that has to be appended.
  function Blanks(w: Wanted, placed: set<Key>, i: nat): string
    requires i <= KEYS
    decreases KEYS - i
  {
    if i == KEYS then ""
    else if i in w && i !in placed then "\n" + Blanks(w, placed, i + 1)
    else Blanks(w, placed, i + 1)
  }

  lemma {:induction false} OutsideAppend(a: seq<string>, b: seq<string>)
    requires Sealed(a)
    ensures Outside(a + b) == Outside(a) + Outside(b)
    decreases |a|
  {
    if a == [] {
      assert a + b == b && "" + Outside(b) == Outside(b);
    } else {
      SealedTaken(a, b);
      OutsideAppend(a[Taken(a)..], b);
      Assoc(if IsBegin(a[0]) then "" else a[0], Outside(a[Taken(a)..]), Outside(b));
    }
  }

  lemma {:induction false} VanishedIsInside(lines: seq<string>, w: Wanted)
    requires Vanishes(lines, w)
    ensures Outside(lines) == ""
    decreases |lines|
  {
    if lines != [] {
      VanishedIsInside(lines[Taken(lines)..], w);
    }
  }

  lemma OutsideLine(l: string, t: string)
    requires IsLine(l) && !IsBegin(l)
    ensures Outside(ReadLines(l + t)) == l + Outside(ReadLines(t))
  {
    ReadFirst(l, t);
    var lines := [l] + ReadLines(t);
    assert lines[1..] == ReadLines(t);
  }

  lemma OutsideBlock(k: Key, w: Wanted, t: string)
    requires k in w && IsStable(k, w)
    ensures Outside(ReadLines(Block(k, w[k]) + t)) == Outside(ReadLines(t))
  {
    var tail, left := ReadLines(t), Leftover(k, w[k]);
    ReadBlock(k, w[k], t);
    BlockAgainStep(k, w, tail, {});
    LeftoverLines(k, w[k]);
    OutsideAppend(left, tail);
    VanishedIsInside(left, w);
    assert "" + Outside(tail) == Outside(tail);
    assert "" + Outside(left + tail) == Outside(left + tail);
  }

  // The appended part leaves its newlines outside.
  lemma {:induction false} OutsideMissing(w: Wanted, placed: set<Key>, i: nat)
    requires i <= KEYS && AllStable(w)
    ensures var m, n := Missing(w, placed, i), Blanks(w, placed, i);
      if m == "" then n == ""
      else m[0] == '\n' && n != "" && n[0] == '\n' && Outside(ReadLines(m[1..])) == n[1..]
    decreases KEYS - i
  {
    if i < KEYS {
      OutsideMissing(w, placed, i + 1);
      if i in w && i !in placed {
        var t, n := Missing(w, placed, i + 1), Blanks(w, placed, i + 1);
        NewlineFirst(Block(i, w[i]), t);
        OutsideBlock(i, w, t);
        OutsideRest(t, n);
        assert ("\n" + n)[1..] == n;
      }
    }
  }

  lemma OutsideRest(m: string, n: string)
    requires if m == "" then n == ""
      else m[0] == '\n' && n != "" && n[0] == '\n' && Outside(ReadLines(m[1..])) == n[1..]
    ensures Outside(ReadLines(m)) == n
  {
    if m != "" {
      NewlineStays(map[], {});
      assert m == "\n" + m[1..] && n == "\n" + n[1..];
      OutsideLine("\n", m[1..]);
    }
  }

  lemma OutsideOpenLine(l: string, m: string, n: string)
    requires IsOpen(l) && !IsBegin(l)
    requires if m == "" then n == ""
      else m[0] == '\n' && n != "" && n[0] == '\n' && Outside(ReadLines(m[1..])) == n[1..]
    ensures Outside(ReadLines(l + m)) == l + n
  {
    if m == "" {
      ReadOne(l);
      var none: seq<string> := [l][1..];
      assert none == [] && l + m == l && l + "" == l;
      assert Outside([l]) == l + Outside(none);
    } else {
      Rejoin(l, m);
      Rejoin(l, n);
      var line := l + "\n";
      assert line[..|line| - 1] == l;
      BeginTerminated(l);
      OutsideLine(line, m[1..]);
    }
  }

  lemma BeginTerminated(l: string)
    ensures IsBegin(l + "\n") == IsBegin(l)
  {
    TrimTerminated(l);
    BeginLacksNewline();
    StartsTerminated(TrimLeft(l, WS), BEGIN);
  }

  lemma {:induction false} OutsideFinish(lines: seq<string>, w: Wanted, placed: set<Key>)
    requires AreLines(lines) && AllStable(w)
    ensures Outside(ReadLines(Finish(lines, w, placed))) ==
      Kept(lines, w, placed) + Blanks(w, Walk(lines, w, placed).placed, 0)
    decreases |lines|
  {
    if lines == [] {
      FinishEmpty(w, placed);
      OutsideMissing(w, placed, 0);
      OutsideRest(Missing(w, placed, 0), Blanks(w, placed, 0));
      assert "" + Blanks(w, placed, 0) == Blanks(w, placed, 0);
    } else {
      var tail, l, p := lines[Taken(lines)..], lines[0], Placed(lines, w, placed);
      FinishStep(lines, w, placed);
      OutsideFinish(tail, w, p);
      OutsidePiece(lines, w, placed, Finish(tail, w, p), Kept(tail, w, p), Blanks(w, Walk(tail, w, p).placed, 0));
    }
  }

  lemma OutsideVerbatim(lines: seq<string>, w: Wanted, placed: set<Key>, t: string, kept: string, blanks: string)
    requires AreLines(lines) && lines != [] && AllStable(w) && !IsBegin(lines[0])
    requires IsOpen(lines[0]) ==> t == Missing(w, placed, 0) && kept == "" && blanks == Blanks(w, placed, 0)
    requires Outside(ReadLines(t)) == kept + blanks
    ensures Outside(ReadLines(lines[0] + t)) == lines[0] + kept + blanks
  {
    var l := lines[0];
    if IsLine(l) {
      OutsideLine(l, t);
      Assoc(l, kept, blanks);
    } else {
      OutsideMissing(w, placed, 0);
      OutsideOpenLine(l, t, blanks);
      assert l + "" == l;
    }
  }

  // One step, given what its remaining lines leave outside.
  lemma OutsidePiece(lines: seq<string>, w: Wanted, placed: set<Key>, t: string, kept: string, blanks: string)
    requires AreLines(lines) && lines != [] && AllStable(w)
    requires var tail, p := lines[Taken(lines)..], Placed(lines, w, placed);
      t == Finish(tail, w, p) && kept == Kept(tail, w, p) && blanks == Blanks(w, Walk(tail, w, p).placed, 0)
    requires Outside(ReadLines(t)) == kept + blanks
    ensures Outside(ReadLines(Piece(lines, w, placed) + t)) == Kept(lines, w, placed) + blanks
  {
    var l := lines[0];
    match Emits(lines, w, placed)
    case Some(k) =>
      OutsideBlock(k, w, t);
      assert "" + kept == kept;
    case None =>
      if IsBegin(l) {
        assert "" + t == t && "" + kept == kept;
      } else {
        FinishEmpty(w, placed);
        OutsideVerbatim(lines, w, placed, t, kept, blanks);
      }
  }

  // The keys that have a block or an assignment in the first step's lines, added to those seen before.
  function SeenNext(lines: seq<string>, seen: set<Key>): set<Key>
    requires lines != []
  {
    var k := if IsBegin(lines[0]) then FirstKey(lines[1..BlockEnd(lines, 1)]) else KeyOf(lines[0]);
    if k.Some? then seen + {k.value} else seen
  }

  function AllSeen(lines: seq<string>, seen: set<Key>): set<Key>
    decreases |lines|
  {
    if lines == [] then seen else AllSeen(lines[Taken(lines)..], SeenNext(lines, seen))
  }

  // The text outside old blocks, less each line that assigns a wanted key which neither a block nor a line
  // before it has.
  function HandWritten(lines: seq<string>, w: Wanted, seen: set<Key>): string
    decreases |lines|
  {
    if lines == [] then ""
    else
      var k := KeyOf(lines[0]);
      (if IsBegin(lines[0]) || (k.Some? && k.value in w && k.value !in seen) then "" else lines[0]) +
      HandWritten(lines[Taken(lines)..], w, SeenNext(lines, seen))
  }

  // Of the wanted keys, the walk has placed those it has seen.
  predicate Agree(w: Wanted, placed: set<Key>, seen: set<Key>) {
    forall k :: k in w ==> (k in placed <==> k in seen)
  }

  lemma {:induction false} KeptIsHandWritten(lines: seq<string>, w: Wanted, placed: set<Key>, seen: set<Key>)
    requires Agree(w, placed, seen)
    ensures Kept(lines, w, placed) == HandWritten(lines, w, seen)
    ensures Agree(w, Walk(lines, w, placed).placed, AllSeen(lines, seen))
    decreases |lines|
  {
    if lines != [] {
      KeptIsHandWritten(lines[Taken(lines)..], w, Placed(lines, w, placed), SeenNext(lines, seen));
    }
  }

  lemma {:induction false} BlanksAgree(w: Wanted, placed: set<Key>, seen: set<Key>, i: nat)
    requires i <= KEYS && Agree(w, placed, seen)
    ensures Blanks(w, placed, i) == Blanks(w, seen, i)
    decreases KEYS - i
  {
    if i < KEYS {
      BlanksAgree(w, placed, seen, i + 1);
    }
  }

  // What hand-written text the new file holds.
  function Survives(text: string, w: Wanted): string {
    HandWritten(ReadLines(text), w, {}) + Blanks(w, AllSeen(ReadLines(text), {}), 0)
  }

  lemma SurvivesIs(text: string, w: Wanted)
    ensures Kept(ReadLines(text), w, {}) + Blanks(w, Walk(ReadLines(text), w, {}).placed, 0) == Survives(text, w)
  {
    var lines := ReadLines(text);
    KeptIsHandWritten(lines, w, {}, {});
    BlanksAgree(w, Walk(lines, w, {}).placed, AllSeen(lines, {}), 0);
  }

  /** With stable values a reader of the new file agrees on where its blocks are: outside them stands, in order,
      what stood outside the blocks of the old file except adopted assignments, then one newline per appended
      block. HandWrittenTextSurvives below holds for every manifest. */
  lemma OutsideTextSurvives(text: string, w: Wanted)
    requires AllStable(w)
    ensures Outside(ReadLines(Regenerate(text, w))) == Survives(text, w)
  {
    ReadLinesAreLines(text);
    OutsideFinish(ReadLines(text), w, {});
    SurvivesIs(text, w);
  }

  // A cut of the written file into text and generated blocks.
  datatype Part = Plain(text: string) | Generated(key: Key)

  predicate AreWanted(parts: seq<Part>, w: Wanted) {
    forall i :: 0 <= i < |parts| && parts[i].Generated? ==> parts[i].key in w
  }

  function Rendered(parts: seq<Part>, w: Wanted): string
    requires AreWanted(parts, w)
  {
    if parts == [] then ""
    else
      assert AreWanted(parts[1..], w);
      (match parts[0] case Plain(text) => text case Generated(k) => Block(k, w[k])) + Rendered(parts[1..], w)
  }

  function PlainText(parts: seq<Part>): string {
    if parts == [] then "" else (if parts[0].Plain? then parts[0].text else "") + PlainText(parts[1..])
  }

  lemma PlainFirst(text: string, parts: seq<Part>, w: Wanted)
    requires AreWanted(parts, w)
    ensures AreWanted([Plain(text)] + parts, w)
    ensures Rendered([Plain(text)] + parts, w) == text + Rendered(parts, w)
    ensures PlainText([Plain(text)] + parts) == text + PlainText(parts)
  {
    assert ([Plain(text)] + parts)[1..] == parts;
  }

  lemma BlockFirst(k: Key, parts: seq<Part>, w: Wanted)
    requires AreWanted(parts, w) && k in w
    ensures AreWanted([Generated(k)] + parts, w)
    ensures Rendered([Generated(k)] + parts, w) == Block(k, w[k]) + Rendered(parts, w)
    ensures PlainText([Generated(k)] + parts) == PlainText(parts)
  {
    assert ([Generated(k)] + parts)[1..] == parts;
    assert "" + PlainText(parts) == PlainText(parts);
  }

  lemma {:induction false} PartsOfMissing(w: Wanted, placed: set<Key>, i: nat) returns (parts: seq<Part>)
    requires i <= KEYS
    ensures AreWanted(parts, w) && Rendered(parts, w) == Missing(w, placed, i)
    ensures PlainText(parts) == Blanks(w, placed, i)
    decreases KEYS - i
  {
    if i == KEYS {
      parts := [];
    } else {
      parts := PartsOfMissing(w, placed, i + 1);
      if i in w && i !in placed {
        BlockFirst(i, parts, w);
        PlainFirst("\n", [Generated(i)] + parts, w);
        Assoc("\n", Block(i, w[i]), Missing(w, placed, i + 1));
        parts := [Plain("\n")] + ([Generated(i)] + parts);
      }
    }
  }

  lemma {:induction false} PartsOf(lines: seq<string>, w: Wanted, placed: set<Key>) returns (parts: seq<Part>)
    ensures AreWanted(parts, w) && Rendered(parts, w) == Finish(lines, w, placed)
    ensures PlainText(parts) == Kept(lines, w, placed) + Blanks(w, Walk(lines, w, placed).placed, 0)
    decreases |lines|
  {
    if lines == [] {
      FinishEmpty(w, placed);
      parts := PartsOfMissing(w, placed, 0);
      assert "" + Blanks(w, placed, 0) == Blanks(w, placed, 0);
    } else {
      var tail, p := lines[Taken(lines)..], Placed(lines, w, placed);
      FinishStep(lines, w, placed);
      parts := PartsOf(tail, w, p);
      var kept, blanks := Kept(tail, w, p), Blanks(w, Walk(tail, w, p).placed, 0);
      match Emits(lines, w, placed)
      case Some(k) =>
        BlockFirst(k, parts, w);
        assert "" + kept == kept;
        parts := [Generated(k)] + parts;
      case None =>
        var piece := Piece(lines, w, placed);
        PlainFirst(piece, parts, w);
        Assoc(piece, kept, blanks);
        parts := [Plain(piece)] + parts;
    }
  }

  /** For every file and every manifest, stable or not: the new file is a sequence of pieces of text and of
      blocks holding manifest values, and its text is, in order, what stood outside the blocks of the old file
      except adopted assignments, then one newline per appended block. */
  lemma HandWrittenTextSurvives(text: string, w: Wanted) returns (parts: seq<Part>)
    ensures AreWanted(parts, w) && Rendered(parts, w) == Regenerate(text, w)
    ensures PlainText(parts) == Survives(text, w)
  {
    parts := PartsOf(ReadLines(text), w, {});
    SurvivesIs(text, w);
  }

  lemma {:induction false} MissingHasBlock(w: Wanted, placed: set<Key>, k: Key, i: nat)
    returns (a: string, b: string)
    requires i <= k && k in w && k !in placed
    ensures Missing(w, placed, i) == a + (Block(k, w[k]) + b) && a != "" && Ends(a)
    decreases KEYS - i
  {
    if i == k {
      a, b := "\n", Missing(w, placed, i + 1);
      Assoc("\n", Block(k, w[k]), b);
    } else {
      a, b := MissingHasBlock(w, placed, k, i + 1);
      if i in w && i !in placed {
        var piece := "\n" + Block(i, w[i]);
        PrependPiece(piece, a, Block(k, w[k]) + b);
        a := piece + a;
      }
    }
  }

  lemma PrependPiece(piece: string, a: string, rest: string)
    requires Ends(a) && (Ends(piece) || a != "")
    ensures piece + (a + rest) == piece + a + rest && Ends(piece + a)
  {
  }

  lemma {:induction false} FinishHasBlock(lines: seq<string>, w: Wanted, placed: set<Key>, k: Key)
    returns (a: string, b: string)
    requires AreLines(lines) && k in w && k !in placed
    ensures Finish(lines, w, placed) == a + (Block(k, w[k]) + b) && Ends(a)
    decreases |lines|
  {
    if lines == [] {
      FinishEmpty(w, placed);
      a, b := MissingHasBlock(w, placed, k, 0);
    } else {
      FinishStep(lines, w, placed);
      var tail, p, piece := lines[Taken(lines)..], Placed(lines, w, placed), Piece(lines, w, placed);
      if Emits(lines, w, placed) == Some(k) {
        a, b := "", Finish(tail, w, p);
        assert "" + (Block(k, w[k]) + b) == Block(k, w[k]) + b;
      } else {
        if IsOpen(lines[0]) && tail == [] {
          FinishEmpty(w, p);
          a, b := MissingHasBlock(w, p, k, 0);
        } else {
          a, b := FinishHasBlock(tail, w, p, k);
          PieceEnds(lines, w, placed);
        }
        PrependPiece(piece, a, Block(k, w[k]) + b);
        a := piece + a;
      }
    }
  }

  lemma PieceEnds(lines: seq<string>, w: Wanted, placed: set<Key>)
    requires lines != []
    requires IsLine(lines[0]) || IsBegin(lines[0]) || Emits(lines, w, placed).Some?
    ensures Ends(Piece(lines, w, placed))
  {
    match Emits(lines, w, placed)
    case Some(k) => ReadBlock(k, w[k], "");
    case None =>
  }

  /** Every wanted key ends with a block, at a line boundary, that holds its manifest value. */
  lemma EveryWantedKeyHasItsBlock(text: string, w: Wanted, k: Key) returns (a: string, b: string)
    requires k in w
    ensures Regenerate(text, w) == a + (Block(k, w[k]) + b) && Ends(a)
  {
    ReadLinesAreLines(text);
    a, b := FinishHasBlock(ReadLines(text), w, {}, k);
  }
}
