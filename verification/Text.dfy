/** Character classes, hexadecimal, trimming and delimiter splitting shared by the text protocols. */
module Text {
  import opened Machine

  // ---- characters ----

  function Upper(c: char): char {
    if 'a' <= c <= 'z' then c - 'a' + 'A' else c
  }

  function UpperAll(s: string): (r: string)
    ensures |r| == |s|
    ensures forall i :: 0 <= i < |s| ==> r[i] == Upper(s[i])
  {
    seq(|s|, i requires 0 <= i < |s| => Upper(s[i]))
  }

  /** The ASCII letters change, nothing else does. */
  lemma UpperExactly(c: char)
    ensures forall i :: 0 <= i < 26 && c == "abcdefghijklmnopqrstuvwxyz"[i] ==>
      Upper(c) == "ABCDEFGHIJKLMNOPQRSTUVWXYZ"[i]
    ensures !('a' <= c <= 'z') ==> Upper(c) == c
  {
  }

  // A line terminator.
  predicate IsEol(c: char) {
    c == '\r' || c == '\n'
  }

  predicate IsHex(c: char) {
    '0' <= c <= '9' || 'a' <= c <= 'f' || 'A' <= c <= 'F'
  }

  function HexVal(c: char): (v: int)
    requires IsHex(c)
    ensures 0 <= v < 16
  {
    if '0' <= c <= '9' then c as int - '0' as int
    else if 'a' <= c <= 'f' then c as int - 'a' as int + 10
    else c as int - 'A' as int + 10
  }

  function HexDigit(v: int): (c: char)
    requires 0 <= v < 16
    ensures IsHex(c) && HexVal(c) == v && Upper(c) == c
  {
    if v < 10 then '0' + v as char else 'A' + (v - 10) as char
  }

  /** The hex digits and their values; case does not matter, and digits are written in upper case. */
  lemma HexTable(v: nat)
    requires v < 16
    ensures var upper, lower := "0123456789ABCDEF", "0123456789abcdef";
      && IsHex(upper[v]) && IsHex(lower[v]) && HexVal(upper[v]) == HexVal(lower[v]) == v
      && HexDigit(v) == upper[v] && Upper(lower[v]) == upper[v]
  {
  }

  lemma HexAlphabet(c: char)
    ensures IsHex(c) <==> c in "0123456789ABCDEFabcdef"
    ensures IsHex(Upper(c)) <==> IsHex(c)
    ensures IsHex(c) ==> HexVal(Upper(c)) == HexVal(c)
  {
    var all := "0123456789ABCDEFabcdef";
    if '0' <= c <= '9' {
      assert all[c as int - '0' as int] == c;
    } else if 'A' <= c <= 'F' {
      assert all[c as int - 'A' as int + 10] == c;
    } else if 'a' <= c <= 'f' {
      assert all[c as int - 'a' as int + 16] == c;
    }
  }

  // "%02X"
  function Hex2(b: byte): (s: string)
    ensures |s| == 2 && IsHex(s[0]) && IsHex(s[1])
    ensures 16 * HexVal(s[0]) + HexVal(s[1]) == b
  {
    [HexDigit(b / 16), HexDigit(b % 16)]
  }

  function HexBytes(bs: seq<byte>): string {
    if bs == [] then "" else Hex2(bs[0]) + HexBytes(bs[1..])
  }

  predicate AllHex(s: string) {
    forall i :: 0 <= i < |s| ==> IsHex(s[i])
  }

  // The bytes spelled by consecutive pairs of hex digits; a trailing lone digit is ignored.
  function PairBytes(s: string): (r: seq<byte>)
    requires AllHex(s)
    ensures |r| == |s| / 2
  {
    if |s| < 2 then [] else [16 * HexVal(s[0]) + HexVal(s[1])] + PairBytes(s[2..])
  }

  predicate IsHexPair(s: string, k: nat) {
    2 * k + 2 <= |s| && IsHex(s[2 * k]) && IsHex(s[2 * k + 1])
  }

  // The byte spelled by the k-th pair.
  function PairVal(s: string, k: nat): byte
    requires IsHexPair(s, k)
  {
    16 * HexVal(s[2 * k]) + HexVal(s[2 * k + 1])
  }

  lemma {:induction false} PairBytesAt(s: string, k: nat)
    requires AllHex(s) && k < |s| / 2
    ensures IsHexPair(s, k) && PairBytes(s)[k] == PairVal(s, k)
  {
    if k > 0 {
      PairBytesAt(s[2..], k - 1);
      assert s[2..][2 * (k - 1)] == s[2 * k] && s[2..][2 * (k - 1) + 1] == s[2 * k + 1];
    }
  }

  /** Hex text means the same bytes in either case. */
  lemma {:induction false} PairBytesCaseBlind(s: string)
    requires AllHex(s)
    ensures AllHex(UpperAll(s)) && PairBytes(UpperAll(s)) == PairBytes(s)
  {
    forall i | 0 <= i < |s|
      ensures IsHex(UpperAll(s)[i]) && HexVal(UpperAll(s)[i]) == HexVal(s[i])
    {
      HexAlphabet(s[i]);
    }
    if |s| >= 2 {
      PairBytesCaseBlind(s[2..]);
      assert UpperAll(s)[2..] == UpperAll(s[2..]);
    }
  }

  lemma {:induction false} PairBytesAppend(a: string, b: string)
    requires AllHex(a) && AllHex(b) && |a| % 2 == 0
    ensures AllHex(a + b) && PairBytes(a + b) == PairBytes(a) + PairBytes(b)
  {
    if a == "" {
      assert a + b == b;
    } else {
      assert (a + b)[2..] == a[2..] + b;
      PairBytesAppend(a[2..], b);
    }
  }

  lemma {:induction false} HexBytesRoundTrip(bs: seq<byte>)
    ensures AllHex(HexBytes(bs)) && |HexBytes(bs)| == 2 * |bs|
    ensures PairBytes(HexBytes(bs)) == bs
  {
    if bs != [] {
      HexBytesRoundTrip(bs[1..]);
      assert HexBytes(bs)[2..] == HexBytes(bs[1..]);
    }
  }

  // ---- searching ----

  predicate Lacks<T(==)>(s: seq<T>, d: T) {
    forall i :: 0 <= i < |s| ==> s[i] != d
  }

  // The least index of d in s, or |s|.
  function IndexOf<T(==)>(s: seq<T>, d: T): (i: nat)
    ensures i <= |s|
    ensures forall k :: 0 <= k < i ==> s[k] != d
    ensures i < |s| ==> s[i] == d
  {
    if s == [] || s[0] == d then 0 else 1 + IndexOf(s[1..], d)
  }

  predicate OccursAt(s: string, pat: string, i: nat) {
    i + |pat| <= |s| && s[i..i + |pat|] == pat
  }

  // The position of the first occurrence of pat in s, or -1.
  function Find(s: string, pat: string): (r: int)
    ensures r < 0 ==> r == -1 && forall i: nat :: !OccursAt(s, pat, i)
    ensures r >= 0 ==> OccursAt(s, pat, r) && forall i: nat :: i < r ==> !OccursAt(s, pat, i)
  {
    FindFrom(s, pat, 0)
  }

  function FindFrom(s: string, pat: string, from: nat): (r: int)
    ensures r < 0 ==> r == -1 && forall i: nat :: from <= i ==> !OccursAt(s, pat, i)
    ensures r >= 0 ==> from <= r && OccursAt(s, pat, r) && forall i: nat :: from <= i < r ==> !OccursAt(s, pat, i)
    decreases |s| - from
  {
    if from + |pat| > |s| then -1
    else if OccursAt(s, pat, from) then from
    else if from == |s| then -1
    else FindFrom(s, pat, from + 1)
  }

  predicate Contains(s: string, pat: string) {
    Find(s, pat) >= 0
  }

  lemma FoundAt(s: string, pat: string, i: nat)
    requires OccursAt(s, pat, i)
    ensures Contains(s, pat)
  {
  }

  lemma FoundLetter(s: string, pat: string, c: char)
    requires Contains(s, pat) && c in pat
    ensures c in s
  {
    var i := Find(s, pat);
    var k: nat :| k < |pat| && pat[k] == c;
    assert s[i + k] == s[i..i + |pat|][k];
  }

  predicate StartsWith(s: string, p: string) {
    |p| <= |s| && s[..|p|] == p
  }

  // ---- splitting on a delimiter ----

  // The completed pieces of s, in order, without their delimiter.
  function Pieces<T(==)>(s: seq<T>, d: T): seq<seq<T>>
    decreases |s|
  {
    var i := IndexOf(s, d);
    if i == |s| then [] else [s[..i]] + Pieces(s[i + 1..], d)
  }

  // What follows the last delimiter.
  function Rest<T(==)>(s: seq<T>, d: T): (r: seq<T>)
    ensures Lacks(r, d)
    decreases |s|
  {
    var i := IndexOf(s, d);
    if i == |s| then assert s[..i] == s; s else Rest(s[i + 1..], d)
  }

  lemma Assoc<T>(a: seq<T>, b: seq<T>, c: seq<T>)
    ensures a + b + c == a + (b + c)
  {
  }

  lemma SplitFirst<T>(head: seq<T>, d: T, tail: seq<T>)
    requires Lacks(head, d)
    ensures Pieces(head + [d] + tail, d) == [head] + Pieces(tail, d)
    ensures Rest(head + [d] + tail, d) == Rest(tail, d)
  {
    var s := head + [d] + tail;
    assert s[|head|] == d;
    assert forall k :: 0 <= k < |head| ==> s[k] == head[k];
    assert IndexOf(s, d) == |head|;
    assert s[..|head|] == head && s[|head| + 1..] == tail;
  }

  lemma SplitNone<T>(s: seq<T>, d: T)
    requires Lacks(s, d)
    ensures Pieces(s, d) == [] && Rest(s, d) == s
  {
  }

  // A sequence either lacks the delimiter or splits at its first occurrence.
  lemma FirstCut<T>(s: seq<T>, d: T) returns (head: seq<T>, tail: seq<T>)
    requires !Lacks(s, d)
    ensures s == head + [d] + tail && Lacks(head, d) && |tail| < |s|
  {
    var i := IndexOf(s, d);
    head, tail := s[..i], s[i + 1..];
  }

  function Unsplit<T>(pieces: seq<seq<T>>, d: T): seq<T> {
    if pieces == [] then [] else pieces[0] + [d] + Unsplit(pieces[1..], d)
  }

  lemma UnsplitCons<T>(head: seq<T>, pieces: seq<seq<T>>, d: T)
    ensures Unsplit([head] + pieces, d) == head + [d] + Unsplit(pieces, d)
  {
    assert ([head] + pieces)[1..] == pieces;
  }

  // Splitting loses nothing: the pieces, each closed by the delimiter, and the rest spell the input.
  lemma {:induction false} SplitIsExact<T>(s: seq<T>, d: T)
    ensures Unsplit(Pieces(s, d), d) + Rest(s, d) == s
    decreases |s|
  {
    if Lacks(s, d) {
      SplitNone(s, d);
    } else {
      var head, tail := FirstCut(s, d);
      SplitFirst(head, d, tail);
      SplitIsExact(tail, d);
      UnsplitCons(head, Pieces(tail, d), d);
      Assoc(head + [d], Unsplit(Pieces(tail, d), d), Rest(tail, d));
    }
  }

  lemma {:induction false} PiecesLack<T>(s: seq<T>, d: T, k: nat)
    requires k < |Pieces(s, d)|
    ensures Lacks(Pieces(s, d)[k], d)
    decreases |s|
  {
    var i := IndexOf(s, d);
    if k > 0 {
      PiecesLack(s[i + 1..], d, k - 1);
    }
  }

  // Incremental splitting agrees with batch splitting: only the unfinished rest has to be carried over.
  lemma {:induction false} SplitAppend<T>(a: seq<T>, b: seq<T>, d: T)
    ensures Pieces(a + b, d) == Pieces(a, d) + Pieces(Rest(a, d) + b, d)
    ensures Rest(a + b, d) == Rest(Rest(a, d) + b, d)
    decreases |a|
  {
    if Lacks(a, d) {
      SplitNone(a, d);
    } else {
      var head, tail := FirstCut(a, d);
      Assoc(head + [d], tail, b);
      SplitFirst(head, d, tail);
      SplitFirst(head, d, tail + b);
      SplitAppend(tail, b, d);
      Assoc([head], Pieces(tail, d), Pieces(Rest(tail, d) + b, d));
    }
  }

  // The effect of one more element.
  lemma SplitSnoc<T>(s: seq<T>, c: T, d: T)
    ensures c == d ==> Pieces(s + [c], d) == Pieces(s, d) + [Rest(s, d)] && Rest(s + [c], d) == []
    ensures c != d ==> Pieces(s + [c], d) == Pieces(s, d) && Rest(s + [c], d) == Rest(s, d) + [c]
  {
    SplitAppend(s, [c], d);
    var rest := Rest(s, d);
    if c == d {
      SplitFirst(rest, d, []);
      SplitNone<T>([], d);
      assert rest + [d] + [] == rest + [d];
    } else {
      SplitNone(rest + [c], d);
      assert Pieces(s, d) + [] == Pieces(s, d);
    }
  }

  // ---- trimming ----

  function TrimLeft(s: string, ws: set<char>): string {
    if s == "" || s[0] !in ws then s else TrimLeft(s[1..], ws)
  }

  function TrimRight(s: string, ws: set<char>): string {
    if s == "" || s[|s| - 1] !in ws then s else TrimRight(s[..|s| - 1], ws)
  }

  function Trim(s: string, ws: set<char>): string {
    TrimRight(TrimLeft(s, ws), ws)
  }

  predicate Tight(s: string, ws: set<char>) {
    s == "" || (s[0] !in ws && s[|s| - 1] !in ws)
  }

  // r is s without some characters at either end.
  predicate Within(r: string, s: string) {
    |r| <= |s| && forall i :: 0 <= i < |r| ==> r[i] in s
  }

  lemma {:induction false} TrimLeftFacts(s: string, ws: set<char>)
    ensures var r := TrimLeft(s, ws); Within(r, s) && (r != "" ==> r[0] !in ws)
  {
    if s != "" && s[0] in ws {
      TrimLeftFacts(s[1..], ws);
    }
  }

  lemma {:induction false} TrimRightFacts(s: string, ws: set<char>)
    ensures var r := TrimRight(s, ws);
      Within(r, s) && (r != "" ==> r[0] == s[0] && r[|r| - 1] !in ws)
  {
    if s != "" && s[|s| - 1] in ws {
      TrimRightFacts(s[..|s| - 1], ws);
    }
  }

  lemma TrimFacts(s: string, ws: set<char>)
    ensures Within(Trim(s, ws), s) && Tight(Trim(s, ws), ws)
  {
    TrimLeftFacts(s, ws);
    TrimRightFacts(TrimLeft(s, ws), ws);
  }

  predicate AllIn(s: string, ws: set<char>) {
    forall i :: 0 <= i < |s| ==> s[i] in ws
  }

  lemma {:induction false} TrimLeftDrops(s: string, ws: set<char>) returns (a: string)
    ensures s == a + TrimLeft(s, ws) && AllIn(a, ws)
  {
    if s == "" || s[0] !in ws {
      a := "";
    } else {
      a := TrimLeftDrops(s[1..], ws);
      assert s == [s[0]] + (a + TrimLeft(s, ws));
      a := [s[0]] + a;
    }
  }

  lemma {:induction false} TrimRightDrops(s: string, ws: set<char>) returns (b: string)
    ensures s == TrimRight(s, ws) + b && AllIn(b, ws)
  {
    if s == "" || s[|s| - 1] !in ws {
      b := "";
    } else {
      var last := s[|s| - 1];
      b := TrimRightDrops(s[..|s| - 1], ws);
      assert s == (TrimRight(s, ws) + b) + [last];
      b := b + [last];
    }
  }

  /** Trimming drops exactly the blanks at both ends: the text is the result between blanks, and the result
      neither begins nor ends with one. */
  lemma TrimExactly(s: string, ws: set<char>) returns (a: string, b: string)
    ensures s == a + Trim(s, ws) + b && AllIn(a, ws) && AllIn(b, ws)
    ensures Tight(Trim(s, ws), ws)
  {
    a := TrimLeftDrops(s, ws);
    b := TrimRightDrops(TrimLeft(s, ws), ws);
    Assoc(a, Trim(s, ws), b);
    TrimFacts(s, ws);
  }

  lemma TrimOfTight(s: string, ws: set<char>)
    requires Tight(s, ws)
    ensures Trim(s, ws) == s
  {
  }

  // ---- selecting from a list ----

  // The positions of some elements of a list of length n, in order.
  predicate Increasing(src: seq<nat>, n: nat) {
    && (forall j :: 0 <= j < |src| ==> src[j] < n)
    && (forall i, j :: 0 <= i < j < |src| ==> src[i] < src[j])
  }

  // The list ys is made, one by one and in order, from exactly the elements of xs that are taken.
  ghost predicate Selected<A(!new), B(!new)>(xs: seq<A>, ys: seq<B>, src: seq<nat>, takes: A -> bool,
                                             made: (A, B) -> bool) {
    && Increasing(src, |xs|) && |src| == |ys|
    && (forall j :: 0 <= j < |ys| ==> made(xs[src[j]], ys[j]))
    && (forall i :: 0 <= i < |xs| ==> (i in src <==> takes(xs[i])))
  }

  lemma SelectedSkip<A(!new), B(!new)>(xs: seq<A>, x: A, ys: seq<B>, src: seq<nat>, takes: A -> bool,
                                       made: (A, B) -> bool)
    requires Selected(xs, ys, src, takes, made) && !takes(x)
    ensures Selected(xs + [x], ys, src, takes, made)
  {
    assert |xs| !in src;
  }

  lemma SelectedTake<A(!new), B(!new)>(xs: seq<A>, x: A, ys: seq<B>, y: B, src: seq<nat>, takes: A -> bool,
                                       made: (A, B) -> bool)
    requires Selected(xs, ys, src, takes, made) && takes(x) && made(x, y)
    ensures Selected(xs + [x], ys + [y], src + [|xs|], takes, made)
  {
    var all := src + [|xs|];
    forall i | 0 <= i < |xs + [x]|
      ensures i in all <==> takes((xs + [x])[i])
    {
      assert i in all <==> i in src || i == |xs|;
    }
  }

  // Concatenation of a list of chunks.
  function Concat<T>(chunks: seq<seq<T>>): seq<T> {
    if chunks == [] then [] else chunks[0] + Concat(chunks[1..])
  }
}
