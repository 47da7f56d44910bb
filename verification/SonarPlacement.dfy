/** Where everything in a regenerated properties file stands, in closed form: from a cut of the old file into
    generated blocks and the lines outside them, without the order in which a run meets them. */
module SonarPlacement {
  import opened Text
  import opened Wrappers
  import opened SonarConfig

  // ---- what a line is, by its text ----

  // After leading blanks the line continues with p.
  ghost predicate Leads(line: string, p: string) {
    exists n :: 0 <= n <= |line| && AllIn(line[..n], WS) && p <= line[n..]
  }

  ghost predicate Opens(line: string) {
    Leads(line, BEGIN)
  }

  ghost predicate Closes(line: string) {
    Leads(line, END)
  }

  ghost predicate Assigns(line: string, k: Key) {
    Leads(line, OWNED_KEYS[k] + "=")
  }

  lemma {:induction false} TrimLeftIs(line: string, n: nat)
    requires n <= |line| && AllIn(line[..n], WS) && (n < |line| ==> line[n] !in WS)
    ensures TrimLeft(line, WS) == line[n..]
  {
    if n > 0 {
      var head, rest := line[..n], line[1..];
      assert line[0] == head[0];
      assert forall i :: 0 <= i < n - 1 ==> rest[i] == head[i + 1];
      TrimLeftIs(rest, n - 1);
      assert rest[n - 1..] == line[n..];
    }
  }

  lemma LeadsExactly(line: string, p: string)
    requires p != "" && p[0] !in WS
    ensures Leads(line, p) <==> StartsWith(TrimLeft(line, WS), p)
  {
    if Leads(line, p) {
      var n :| 0 <= n <= |line| && AllIn(line[..n], WS) && p <= line[n..];
      assert line[n] == line[n..][0] == p[0];
      TrimLeftIs(line, n);
    }
    var a := TrimLeftDrops(line, WS);
    if StartsWith(TrimLeft(line, WS), p) {
      assert line[..|a|] == a && line[|a|..] == TrimLeft(line, WS);
    }
  }

  lemma MarkersLead(line: string)
    ensures Opens(line) <==> IsBegin(line)
    ensures Closes(line) <==> IsEnd(line)
  {
    LeadsExactly(line, BEGIN);
    LeadsExactly(line, END);
  }

  lemma AssignsExactly(line: string, k: Key)
    ensures Assigns(line, k) <==> KeyOf(line) == Some(k)
  {
    KeyChars(k);
    LeadsExactly(line, Name(k) + "=");
    if Assigns(line, k) {
      KeyFromFinds(TrimLeft(line, WS), k, 0);
    }
    if KeyOf(line) == Some(k) {
      KeyFromStarts(TrimLeft(line, WS), 0);
    }
  }

  lemma {:induction false} KeyFromStarts(s: string, i: nat)
    requires i <= KEYS && KeyFrom(s, i).Some?
    ensures StartsWith(s, Name(KeyFrom(s, i).value) + "=")
    decreases KEYS - i
  {
    if !StartsWith(s, Name(i) + "=") {
      KeyFromStarts(s, i + 1);
    }
  }

  // ---- cutting a file ----

  ghost predicate IsBlock(group: seq<string>)
    requires group != []
  {
    Opens(group[0])
  }

  // One line outside the blocks, or an opening line and what follows up to its closing line.
  ghost predicate IsGroup(group: seq<string>, last: bool) {
    && group != []
    && (!IsBlock(group) ==> |group| == 1)
    && (forall i :: 1 <= i < |group| - 1 ==> !Closes(group[i]))
    && (IsBlock(group) && !last ==> |group| > 1 && Closes(group[|group| - 1]))
  }

  // Only the last block may lack its closing line.
  ghost predicate IsCut(groups: seq<seq<string>>) {
    forall j :: 0 <= j < |groups| ==> IsGroup(groups[j], j == |groups| - 1)
  }

  // The group holds key k: the first key assigned inside a block, or the one its line assigns.
  ghost predicate Holds(group: seq<string>, k: Key)
    requires group != []
  {
    if IsBlock(group) then
      exists i :: 1 <= i < |group| && Assigns(group[i], k)
        && forall x, k' :: 1 <= x < i ==> !Assigns(group[x], k')
    else Assigns(group[0], k)
  }

  // A group before the j-th holds key k.
  ghost predicate HeldBefore(groups: seq<seq<string>>, j: nat, k: Key)
    requires IsCut(groups) && j <= |groups|
  {
    exists i :: 0 <= i < j && Holds(groups[i], k)
  }

  // A run writes a block for key k in place of the j-th group.
  ghost predicate Renewed(groups: seq<seq<string>>, j: nat, w: Wanted, k: Key)
    requires IsCut(groups) && j < |groups|
  {
    k in w && Holds(groups[j], k) && (IsBlock(groups[j]) || !HeldBefore(groups, j, k))
  }

  // The text of a fresh block.
  function Fresh(k: Key, v: string): string {
    BEGIN + "\n" + OWNED_KEYS[k] + "=" + v + "\n" + END + "\n"
  }

  lemma {:induction false} FirstKeyIs(lines: seq<string>, k: Key)
    ensures FirstKey(lines) == Some(k) <==>
      exists i :: 0 <= i < |lines| && Assigns(lines[i], k) && forall x, k' :: 0 <= x < i ==> !Assigns(lines[x], k')
  {
    if lines != [] {
      FirstKeyIs(lines[1..], k);
      forall k': Key
        ensures Assigns(lines[0], k') <==> KeyOf(lines[0]) == Some(k')
      {
        AssignsExactly(lines[0], k');
      }
      if i :| 0 <= i < |lines| && Assigns(lines[i], k) && forall x, k' :: 0 <= x < i ==> !Assigns(lines[x], k') {
        if i > 0 {
          assert lines[1..][i - 1] == lines[i];
          assert forall x :: 0 <= x < i - 1 ==> lines[1..][x] == lines[x + 1];
          assert KeyOf(lines[0]) == None;
        }
      }
      if FirstKey(lines) == Some(k) && KeyOf(lines[0]) == None {
        var i :| 0 <= i < |lines[1..]| && Assigns(lines[1..][i], k)
          && forall x, k' :: 0 <= x < i ==> !Assigns(lines[1..][x], k');
        assert Assigns(lines[i + 1], k);
      }
    }
  }

  // ---- one group ----

  lemma ClosingAssignsNothing(line: string, k: Key)
    requires Closes(line)
    ensures !Assigns(line, k)
  {
    KeyChars(k);
    var p := Name(k) + "=";
    LeadsExactly(line, END);
    LeadsExactly(line, p);
    PrefixChar(TrimLeft(line, WS), END, 0);
    assert END[0] == '#' && p[0] == 's';
    if Assigns(line, k) {
      PrefixChar(TrimLeft(line, WS), p, 0);
    }
  }

  // Where the block's closing line stands, or would stand.
  lemma BlockEnds(group: seq<string>, rest: seq<string>) returns (e: nat)
    requires IsGroup(group, rest == []) && IsBlock(group)
    ensures 1 <= e <= |group| && e == BlockEnd(group + rest, 1)
    ensures if e < |group| then e == |group| - 1 && Closes(group[e]) else rest == []
    ensures Taken(group + rest) == |group|
  {
    var lines, n := group + rest, |group|;
    forall i | 0 <= i < n
      ensures Opens(group[i]) <==> IsBegin(lines[i])
      ensures Closes(group[i]) <==> IsEnd(lines[i])
    {
      MarkersLead(group[i]);
    }
    e := BlockEnd(lines, 1);
    if n > 1 && Closes(group[n - 1]) {
      assert lines[n - 1] == group[n - 1];
    }
  }

  lemma HoldsInside(group: seq<string>, e: nat, k: Key)
    requires group != [] && IsBlock(group) && 1 <= e <= |group|
    requires e < |group| ==> e == |group| - 1 && Closes(group[e])
    ensures FirstKey(group[1..e]) == Some(k) <==> Holds(group, k)
  {
    var inner := group[1..e];
    FirstKeyIs(inner, k);
    if i :| 0 <= i < |inner| && Assigns(inner[i], k) && forall x, k' :: 0 <= x < i ==> !Assigns(inner[x], k') {
      assert Assigns(group[i + 1], k);
      forall x, k' | 1 <= x < i + 1
        ensures !Assigns(group[x], k')
      {
        assert inner[x - 1] == group[x];
      }
    }
    if Holds(group, k) {
      var i :| 1 <= i < |group| && Assigns(group[i], k) && forall x, k' :: 1 <= x < i ==> !Assigns(group[x], k');
      if i == e {
        ClosingAssignsNothing(group[e], k);
      }
      assert inner[i - 1] == group[i];
      assert forall x :: 0 <= x < i - 1 ==> inner[x] == group[x + 1];
    }
  }

  lemma GroupEmits(group: seq<string>, rest: seq<string>, w: Wanted, placed: set<Key>, k: Key)
    requires IsGroup(group, rest == [])
    ensures Emits(group + rest, w, placed) == Some(k) <==>
      k in w && Holds(group, k) && (IsBlock(group) || k !in placed)
  {
    var lines := group + rest;
    MarkersLead(group[0]);
    AssignsExactly(group[0], k);
    if IsBlock(group) {
      var e := BlockEnds(group, rest);
      assert lines[1..e] == group[1..e];
      HoldsInside(group, e, k);
    }
  }

  lemma GroupStep(group: seq<string>, rest: seq<string>, w: Wanted, placed: set<Key>)
    requires IsGroup(group, rest == [])
    ensures Taken(group + rest) == |group| && (group + rest)[|group|..] == rest
    ensures IsBegin((group + rest)[0]) <==> IsBlock(group)
  {
    MarkersLead(group[0]);
    if IsBlock(group) {
      var e := BlockEnds(group, rest);
    }
  }

  lemma FreshIs(k: Key, v: string)
    ensures Block(k, v) == Fresh(k, v)
  {
    Assoc(BEGIN, "\n", OWNED_KEYS[k]);
  }

  // What a run writes in place of the j-th group.
  ghost predicate PieceIs(groups: seq<seq<string>>, j: nat, w: Wanted, piece: string)
    requires IsCut(groups) && j < |groups|
  {
    && (forall k :: Renewed(groups, j, w, k) ==> piece == Fresh(k, w[k]))
    && ((forall k :: !Renewed(groups, j, w, k)) ==> piece == if IsBlock(groups[j]) then "" else groups[j][0])
  }

  // The walk has placed the wanted keys held before the j-th group.
  ghost predicate PlacedIs(groups: seq<seq<string>>, j: nat, w: Wanted, placed: set<Key>)
    requires IsCut(groups) && j <= |groups|
  {
    forall k :: k in w ==> (k in placed <==> HeldBefore(groups, j, k))
  }

  lemma OneGroup(groups: seq<seq<string>>, j: nat, rest: seq<string>, w: Wanted, placed: set<Key>)
    requires IsCut(groups) && j < |groups| && PlacedIs(groups, j, w, placed)
    requires j == |groups| - 1 <==> rest == []
    ensures PieceIs(groups, j, w, Piece(groups[j] + rest, w, placed))
    ensures PlacedIs(groups, j + 1, w, Placed(groups[j] + rest, w, placed))
  {
    var g := groups[j];
    var lines := g + rest;
    assert IsGroup(g, rest == []);
    GroupStep(g, rest, w, placed);
    forall k: Key
      ensures Emits(lines, w, placed) == Some(k) <==> Renewed(groups, j, w, k)
      ensures k in w ==> (HeldBefore(groups, j + 1, k) <==> HeldBefore(groups, j, k) || Holds(g, k))
    {
      GroupEmits(g, rest, w, placed, k);
      if Holds(g, k) {
        assert HeldBefore(groups, j + 1, k);
      }
    }
    match Emits(lines, w, placed)
    case Some(k) => FreshIs(k, w[k]);
    case None =>
  }

  // ---- the whole file ----

  lemma TailOfCut(groups: seq<seq<string>>, j: nat)
    requires IsCut(groups) && j < |groups|
    ensures Concat(groups[j..]) == groups[j] + Concat(groups[j + 1..])
    ensures Concat(groups[j + 1..]) == [] <==> j == |groups| - 1
  {
    assert groups[j..][1..] == groups[j + 1..];
    if j + 1 < |groups| {
      var next := groups[j + 1..];
      assert next[0] == groups[j + 1] && IsGroup(groups[j + 1], j + 1 == |groups| - 1);
      assert Concat(next) == next[0] + Concat(next[1..]);
    }
  }

  // What a run writes in place of the groups from the j-th on.
  ghost predicate PiecesAre(groups: seq<seq<string>>, j: nat, w: Wanted, pieces: seq<string>)
    requires IsCut(groups) && j <= |groups|
  {
    |pieces| == |groups| - j && forall x :: 0 <= x < |pieces| ==> PieceIs(groups, j + x, w, pieces[x])
  }

  lemma PiecesCons(groups: seq<seq<string>>, j: nat, w: Wanted, piece: string, later: seq<string>)
    requires IsCut(groups) && j < |groups| && PieceIs(groups, j, w, piece) && PiecesAre(groups, j + 1, w, later)
    ensures PiecesAre(groups, j, w, [piece] + later) && Concat([piece] + later) == piece + Concat(later)
  {
    var pieces := [piece] + later;
    assert pieces[1..] == later;
    forall x | 0 <= x < |pieces|
      ensures PieceIs(groups, j + x, w, pieces[x])
    {
      if x > 0 {
        assert PieceIs(groups, j + 1 + (x - 1), w, later[x - 1]);
      }
    }
  }

  lemma WalkGroup(groups: seq<seq<string>>, j: nat, w: Wanted, placed: set<Key>) returns (piece: string, next: set<Key>)
    requires IsCut(groups) && j < |groups| && PlacedIs(groups, j, w, placed)
    ensures PieceIs(groups, j, w, piece) && PlacedIs(groups, j + 1, w, next)
    ensures var r := Walk(Concat(groups[j + 1..]), w, next);
      Walk(Concat(groups[j..]), w, placed) == Walked(piece + r.text, r.placed)
  {
    var rest := Concat(groups[j + 1..]);
    TailOfCut(groups, j);
    OneGroup(groups, j, rest, w, placed);
    GroupStep(groups[j], rest, w, placed);
    piece, next := Piece(groups[j] + rest, w, placed), Placed(groups[j] + rest, w, placed);
  }

  lemma {:induction false} WalkGroups(groups: seq<seq<string>>, j: nat, w: Wanted, placed: set<Key>)
    returns (pieces: seq<string>)
    requires IsCut(groups) && j <= |groups| && PlacedIs(groups, j, w, placed)
    ensures PiecesAre(groups, j, w, pieces) && Walk(Concat(groups[j..]), w, placed).text == Concat(pieces)
    ensures PlacedIs(groups, |groups|, w, Walk(Concat(groups[j..]), w, placed).placed)
    decreases |groups| - j
  {
    if j == |groups| {
      pieces := [];
    } else {
      var piece, next := WalkGroup(groups, j, w, placed);
      var later := WalkGroups(groups, j + 1, w, next);
      PiecesCons(groups, j, w, piece, later);
      pieces := [piece] + later;
    }
  }

  // A block appended for each wanted key from the i-th on that no group holds, behind an empty line.
  ghost function Appended(groups: seq<seq<string>>, w: Wanted, i: nat): string
    requires IsCut(groups) && i <= KEYS
    decreases KEYS - i
  {
    if i == KEYS then ""
    else (if i in w && !HeldBefore(groups, |groups|, i) then "\n" + Fresh(i, w[i]) else "") + Appended(groups, w, i + 1)
  }

  lemma {:induction false} MissingIsAppended(groups: seq<seq<string>>, w: Wanted, placed: set<Key>, i: nat)
    requires IsCut(groups) && i <= KEYS && PlacedIs(groups, |groups|, w, placed)
    ensures Missing(w, placed, i) == Appended(groups, w, i)
    decreases KEYS - i
  {
    if i < KEYS {
      MissingIsAppended(groups, w, placed, i + 1);
      if i in w && i !in placed {
        FreshIs(i, w[i]);
      } else {
        assert "" + Appended(groups, w, i + 1) == Appended(groups, w, i + 1);
      }
    }
  }

  lemma {:induction false} LinesAreRead(lines: seq<string>)
    requires AreLines(lines)
    ensures ReadLines(Concat(lines)) == lines
  {
    if lines != [] {
      var rest := lines[1..];
      assert forall i :: 0 <= i < |rest| ==> rest[i] == lines[i + 1];
      assert AreLines(rest);
      LinesAreRead(rest);
      if IsLine(lines[0]) {
        ReadFirst(lines[0], Concat(rest));
      } else {
        assert rest == [] && lines[0] + "" == lines[0];
        ReadOne(lines[0]);
      }
    }
  }

  lemma WholeWalk(groups: seq<seq<string>>, w: Wanted) returns (pieces: seq<string>)
    requires IsCut(groups)
    ensures |pieces| == |groups| && forall j :: 0 <= j < |groups| ==> PieceIs(groups, j, w, pieces[j])
    ensures Walk(Concat(groups), w, {}).text == Concat(pieces)
    ensures PlacedIs(groups, |groups|, w, Walk(Concat(groups), w, {}).placed)
  {
    assert groups[0..] == groups;
    pieces := WalkGroups(groups, 0, w, {});
    forall j | 0 <= j < |groups|
      ensures PieceIs(groups, j, w, pieces[j])
    {
      assert PieceIs(groups, 0 + j, w, pieces[j]);
    }
  }

  /** The new file in closed form, for every cut of the old one: in place of each old block whose key is wanted, and
      of each line outside that assigns a wanted key no group before it holds, stands a fresh block; every other
      old block is gone and every other line stands as it was; then come the blocks of the wanted keys that no
      group holds. */
  lemma RegeneratedExactly(groups: seq<seq<string>>, w: Wanted) returns (pieces: seq<string>)
    requires IsCut(groups) && AreLines(Concat(groups))
    ensures |pieces| == |groups| && forall j :: 0 <= j < |groups| ==> PieceIs(groups, j, w, pieces[j])
    ensures Regenerate(Concat(Concat(groups)), w) == Concat(pieces) + Appended(groups, w, 0)
  {
    var lines := Concat(groups);
    LinesAreRead(lines);
    pieces := WholeWalk(groups, w);
    MissingIsAppended(groups, w, Walk(lines, w, {}).placed, 0);
  }

  /** A hand-written line stays in its place if and only if each wanted key it assigns is held by an earlier group;
      otherwise the key's block stands in its place. */
  lemma LineStaysExactly(groups: seq<seq<string>>, w: Wanted, j: nat, piece: string)
    requires IsCut(groups) && j < |groups| && !IsBlock(groups[j])
    requires PieceIs(groups, j, w, piece)
    ensures piece == groups[j][0] <==>
      forall k :: k in w && Assigns(groups[j][0], k) ==> HeldBefore(groups, j, k)
    ensures forall k :: k in w && Assigns(groups[j][0], k) && !HeldBefore(groups, j, k) ==> piece == Fresh(k, w[k])
  {
    if k :| k in w && Assigns(groups[j][0], k) && !HeldBefore(groups, j, k) {
      assert Renewed(groups, j, w, k);
      FreshIsNoLine(groups, j, k, w[k]);
    }
  }

  lemma FreshIsNoLine(groups: seq<seq<string>>, j: nat, k: Key, v: string)
    requires IsCut(groups) && j < |groups| && !IsBlock(groups[j])
    ensures Fresh(k, v) != groups[j][0]
  {
    MarkersLead(groups[j][0]);
    MarkerLines();
    FreshIs(k, v);
    BlockOpens(k, v);
  }

  // A block begins with the opening marker.
  lemma BlockOpens(k: Key, v: string)
    ensures IsBegin(Block(k, v))
  {
    var b := Block(k, v);
    Assoc(BEGIN, "\n" + (Name(k) + "=" + v + "\n"), END + "\n");
    assert BEGIN[0] == '#';
    assert b[0] == BEGIN[0] && b[..|BEGIN|] == BEGIN;
    assert TrimLeft(b, WS) == b;
  }

  /** Every file has such a cut. */
  lemma EveryFileIsCut(text: string) returns (groups: seq<seq<string>>)
    ensures IsCut(groups) && AreLines(Concat(groups)) && Concat(Concat(groups)) == text
  {
    ReadLinesAreLines(text);
    ReadSpells(text);
    groups := CutLines(ReadLines(text));
  }

  lemma {:induction false} ReadSpells(s: string)
    ensures Concat(ReadLines(s)) == s
    decreases |s|
  {
    var i := IndexOf(s, '\n');
    if s != "" {
      if i < |s| {
        ReadSpells(s[i + 1..]);
        var lines := [s[..i + 1]] + ReadLines(s[i + 1..]);
        assert lines[1..] == ReadLines(s[i + 1..]);
      } else {
        var none: seq<string> := [s][1..];
        assert none == [] && s + "" == s;
      }
    }
  }

  lemma {:induction false} CutLines(lines: seq<string>) returns (groups: seq<seq<string>>)
    ensures IsCut(groups) && Concat(groups) == lines
    decreases |lines|
  {
    if lines == [] {
      groups := [];
    } else {
      var n := Taken(lines);
      var later := CutLines(lines[n..]);
      TakenIsGroup(lines);
      groups := [lines[..n]] + later;
      assert groups[1..] == later;
      assert lines[n..] == [] ==> later == [] by {
        if later != [] {
          TailOfCut(later, 0);
          assert later[0..] == later && IsGroup(later[0], 0 == |later| - 1);
        }
      }
    }
  }

  lemma TakenIsGroup(lines: seq<string>)
    requires lines != []
    ensures IsGroup(lines[..Taken(lines)], Taken(lines) == |lines|)
  {
    var group := lines[..Taken(lines)];
    forall i | 0 <= i < |group|
      ensures Opens(group[i]) <==> IsBegin(lines[i])
      ensures Closes(group[i]) <==> IsEnd(lines[i])
    {
      MarkersLead(group[i]);
    }
  }
}
