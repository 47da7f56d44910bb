/** Curating an upstream signal database: which signals are emitted, under which names, and with what meaning. */
module DbcAggregate {
  import opened Text
  import opened Wrappers

  // What decides how raw bits become a value.
  datatype Layout = Layout(startBit: int, bitLen: int, byteOrder: int, signed: bool, scale: string, offset: string)

  datatype Signal = Signal(name: string, layout: Layout, minimum: string, maximum: string, unit: string)

  datatype Message = Message(canId: int, name: string, dlc: int, sender: string, signals: seq<Signal>)

  datatype ValueTable = ValueTable(canId: int, signalName: string, entries: seq<(int, string)>)

  type SignalId = (int, string)

  datatype Contracts = Contracts(required: set<SignalId>, optional: set<SignalId>, aliases: map<SignalId, string>)

  type Messages = m: map<int, Message> | forall id :: id in m ==> m[id].canId == id witness map[]

  // ======== the signal index ========

  // A later signal of the same name replaces an earlier one.
  function LastNamed(signals: seq<Signal>, name: string): Option<Signal> {
    if signals == [] then None
    else if signals[|signals| - 1].name == name then Some(signals[|signals| - 1])
    else LastNamed(signals[..|signals| - 1], name)
  }

  ghost predicate Indexes(lut: map<SignalId, Signal>, messages: Messages) {
    forall id: int, name: string ::
      && ((id, name) in lut <==> id in messages && LastNamed(messages[id].signals, name).Some?)
      && ((id, name) in lut ==> LastNamed(messages[id].signals, name) == Some(lut[(id, name)]))
  }

  method SignalLookup(messages: Messages) returns (lut: map<SignalId, Signal>)
    ensures Indexes(lut, messages)
  {
    lut := map[];
    var todo, done := messages.Keys, map[];
    while todo != {}
      invariant todo <= messages.Keys && done.Keys == messages.Keys - todo
      invariant forall id :: id in done ==> done[id] == messages[id]
      invariant Indexes(lut, done)
      decreases |todo|
    {
      var id: int :| id in todo;
      var msg := messages[id];
      var i := 0;
      ghost var before := lut;
      while i < |msg.signals|
        invariant 0 <= i <= |msg.signals|
        invariant Indexes(lut, done[id := Message(id, msg.name, msg.dlc, msg.sender, msg.signals[..i])])
      {
        assert msg.signals[..i + 1][..i] == msg.signals[..i];
        lut := lut[(msg.canId, msg.signals[i].name) := msg.signals[i]];
        i := i + 1;
      }
      assert msg.signals[..i] == msg.signals;
      todo, done := todo - {id}, done[id := msg];
    }
    assert done == messages;
  }

  lemma {:induction false} LastNamedIsThere(signals: seq<Signal>, name: string) returns (i: nat)
    requires LastNamed(signals, name).Some?
    ensures i < |signals| && signals[i].name == name && LastNamed(signals, name) == Some(signals[i])
  {
    var n := |signals| - 1;
    if signals[n].name == name {
      i := n;
    } else {
      i := LastNamedIsThere(signals[..n], name);
    }
  }

  // ======== contract validation ========

  predicate Reachable(r: SignalId, lut: map<SignalId, Signal>, c: Contracts) {
    r in lut || exists a :: a in c.aliases && a.0 == r.0 && c.aliases[a] == r.1
  }

  predicate ContractsHold(lut: map<SignalId, Signal>, c: Contracts) {
    && (forall a :: a in c.aliases ==> a in lut)
    && (forall a, b :: a in c.aliases && b in c.aliases && c.aliases[a] == c.aliases[b] ==> a == b)
    && (forall r :: r in c.required ==> Reachable(r, lut, c))
  }

  // ======== one message ========

  // How a signal is emitted, if it is: renamed, kept, or dropped.
  function Curate(id: int, s: Signal, c: Contracts): Option<Signal> {
    if (id, s.name) in c.aliases then Some(s.(name := c.aliases[(id, s.name)]))
    else if (id, s.name) in c.required || (id, s.name) in c.optional then Some(s)
    else None
  }

  // The alias target exists natively with another layout.
  predicate Drifts(id: int, s: Signal, lut: map<SignalId, Signal>, c: Contracts) {
    && (id, s.name) in c.aliases
    && (id, c.aliases[(id, s.name)]) in lut
    && lut[(id, c.aliases[(id, s.name)])].layout != s.layout
  }

  function CurateAll(id: int, signals: seq<Signal>, c: Contracts): seq<Signal> {
    if signals == [] then []
    else
      var n := |signals| - 1;
      var rest := CurateAll(id, signals[..n], c);
      match Curate(id, signals[n], c)
      case Some(s) => rest + [s]
      case None => rest
  }

  predicate UniqueNames(signals: seq<Signal>) {
    forall i, j :: 0 <= i < j < |signals| ==> signals[i].name != signals[j].name
  }

  function NameSet(signals: seq<Signal>): set<string> {
    if signals == [] then {} else NameSet(signals[..|signals| - 1]) + {signals[|signals| - 1].name}
  }

  lemma {:induction false} NameIn(signals: seq<Signal>, i: nat)
    requires i < |signals|
    ensures signals[i].name in NameSet(signals)
  {
    if i < |signals| - 1 {
      NameIn(signals[..|signals| - 1], i);
    }
  }

  lemma {:induction false} NameFrom(signals: seq<Signal>, name: string) returns (i: nat)
    requires name in NameSet(signals)
    ensures i < |signals| && signals[i].name == name
  {
    i := |signals| - 1;
    if signals[i].name != name {
      i := NameFrom(signals[..i], name);
    }
  }

  lemma UniqueSnoc(init: seq<Signal>, s: Signal)
    ensures UniqueNames(init + [s]) <==> UniqueNames(init) && s.name !in NameSet(init)
  {
    var all := init + [s];
    if s.name in NameSet(init) {
      var i := NameFrom(init, s.name);
      assert all[i].name == all[|init|].name;
    } else {
      forall i | 0 <= i < |init|
        ensures all[i].name != s.name
      {
        NameIn(init, i);
      }
      if UniqueNames(all) {
        assert forall i :: 0 <= i < |init| ==> all[i] == init[i];
      }
    }
  }

  // Comparing the number of names with the number of signals decides uniqueness.
  lemma {:induction false} NameCount(signals: seq<Signal>)
    ensures |NameSet(signals)| <= |signals|
    ensures |NameSet(signals)| == |signals| <==> UniqueNames(signals)
  {
    if signals != [] {
      var init, s := signals[..|signals| - 1], signals[|signals| - 1];
      assert signals == init + [s];
      NameCount(init);
      UniqueSnoc(init, s);
      if s.name in NameSet(init) {
        assert NameSet(signals) == NameSet(init);
      }
    }
  }

  predicate MessageAccepted(id: int, src: Message, lut: map<SignalId, Signal>, c: Contracts) {
    && (forall i :: 0 <= i < |src.signals| ==> !Drifts(id, src.signals[i], lut, c))
    && UniqueNames(CurateAll(id, src.signals, c))
  }

  function CuratedMessage(id: int, src: Message, c: Contracts): Message {
    src.(signals := CurateAll(id, src.signals, c))
  }

  lemma CurateNext(id: int, signals: seq<Signal>, c: Contracts, i: nat)
    requires i < |signals|
    ensures CurateAll(id, signals[..i + 1], c) ==
      CurateAll(id, signals[..i], c) + match Curate(id, signals[i], c) case Some(s) => [s] case None => []
  {
    assert signals[..i + 1][..i] == signals[..i];
  }

  lemma NameNext(signals: seq<Signal>, s: Signal)
    ensures NameSet(signals + [s]) == NameSet(signals) + {s.name}
  {
    assert (signals + [s])[..|signals|] == signals;
  }

  /** One message's loop: the names emitted so far against the signals emitted so far. */
  method BuildMessage(id: int, src: Message, lut: map<SignalId, Signal>, c: Contracts) returns (r: Option<Message>)
    ensures r == if MessageAccepted(id, src, lut, c) then Some(CuratedMessage(id, src, c)) else None
  {
    var signals: seq<Signal>, emitted: set<string> := [], {};
    var i := 0;
    while i < |src.signals|
      invariant 0 <= i <= |src.signals|
      invariant signals == CurateAll(id, src.signals[..i], c) && emitted == NameSet(signals)
      invariant forall k :: 0 <= k < i ==> !Drifts(id, src.signals[k], lut, c)
    {
      var sig := src.signals[i];
      if Drifts(id, sig, lut, c) {
        return None;
      }
      CurateNext(id, src.signals, c, i);
      var kept := Curate(id, sig, c);
      if kept.Some? {
        NameNext(signals, kept.value);
        signals := signals + [kept.value];
        emitted := emitted + {kept.value.name};
      }
      i := i + 1;
    }
    assert src.signals[..i] == src.signals;
    NameCount(signals);
    if |emitted| != |signals| {
      return None;
    }
    return Some(src.(signals := signals));
  }

  // ======== the aggregate ========

  datatype Outcome = Rejected | Built(messages: map<int, Message>, tables: seq<ValueTable>)

  function NeededIds(messages: Messages, c: Contracts): set<int> {
    (set r | r in c.required :: r.0) + (set a | a in c.aliases :: a.0) +
    (set o | o in c.optional && o.0 in messages :: o.0)
  }

  predicate AllPresent(messages: Messages, c: Contracts) {
    forall id :: id in NeededIds(messages, c) ==> id in messages
  }

  predicate IsLive(out: map<int, Message>, id: int, name: string) {
    exists k, i :: k in out && 0 <= i < |out[k].signals| && out[k].canId == id && out[k].signals[i].name == name
  }

  function TargetName(t: ValueTable, c: Contracts): string {
    if (t.canId, t.signalName) in c.aliases then c.aliases[(t.canId, t.signalName)] else t.signalName
  }

  function CarryTables(out: map<int, Message>, tables: seq<ValueTable>, c: Contracts): seq<ValueTable> {
    if tables == [] then []
    else
      var n := |tables| - 1;
      var rest := CarryTables(out, tables[..n], c);
      if IsLive(out, tables[n].canId, TargetName(tables[n], c))
      then rest + [tables[n].(signalName := TargetName(tables[n], c))]
      else rest
  }

  predicate Accepted(messages: Messages, lut: map<SignalId, Signal>, c: Contracts) {
    && ContractsHold(lut, c)
    && AllPresent(messages, c)
    && forall id :: id in NeededIds(messages, c) ==> MessageAccepted(id, messages[id], lut, c)
  }

  function CuratedMessages(messages: Messages, c: Contracts): map<int, Message>
    requires AllPresent(messages, c)
  {
    map id | id in NeededIds(messages, c) :: CuratedMessage(id, messages[id], c)
  }

  /** Specification: either some contract is violated, or exactly the curated messages and their tables. */
  function Aggregate(messages: Messages, lut: map<SignalId, Signal>, tables: seq<ValueTable>, c: Contracts): Outcome
  {
    if !Accepted(messages, lut, c) then Rejected
    else
      var out := CuratedMessages(messages, c);
      Built(out, CarryTables(out, tables, c))
  }

  // The curated messages of the ids in a list.
  method BuildMessages(ids: seq<int>, messages: Messages, lut: map<SignalId, Signal>, c: Contracts)
    returns (r: Option<map<int, Message>>)
    ensures r.Some? <==>
      forall id :: id in ids ==> id in messages && MessageAccepted(id, messages[id], lut, c)
    ensures r.Some? ==> forall id :: id in r.value <==> id in ids
    ensures r.Some? ==> forall id :: id in ids ==> r.value[id] == CuratedMessage(id, messages[id], c)
  {
    var out: map<int, Message> := map[];
    var k := 0;
    while k < |ids|
      invariant 0 <= k <= |ids|
      invariant forall id :: id in out <==> id in ids[..k]
      invariant forall id :: id in out ==>
        id in messages && MessageAccepted(id, messages[id], lut, c) && out[id] == CuratedMessage(id, messages[id], c)
    {
      var id := ids[k];
      if id !in messages {
        return None;
      }
      var built := BuildMessage(id, messages[id], lut, c);
      if built == None {
        return None;
      }
      assert ids[..k + 1] == ids[..k] + [id];
      out := out[id := built.value];
      k := k + 1;
    }
    assert ids[..k] == ids;
    return Some(out);
  }

  lemma SameMessages(out: map<int, Message>, messages: Messages, c: Contracts)
    requires AllPresent(messages, c)
    requires forall id :: id in out <==> id in NeededIds(messages, c)
    requires forall id :: id in out ==> out[id] == CuratedMessage(id, messages[id], c)
    ensures out == CuratedMessages(messages, c)
  {
    var all := CuratedMessages(messages, c);
    forall id: int
      ensures id in out <==> id in all
      ensures id in out ==> out[id] == all[id]
    {
    }
    assert out.Keys == all.Keys;
  }

  /** The builder, visiting the needed ids in any order a hash set may produce. */
  method BuildAggregate(messages: Messages, lut: map<SignalId, Signal>, tables: seq<ValueTable>, c: Contracts,
                        order: seq<int>) returns (r: Outcome)
    requires forall id :: id in order <==> id in NeededIds(messages, c)
    ensures r == Aggregate(messages, lut, tables, c)
  {
    if !ContractsHold(lut, c) {
      return Rejected;
    }
    var out := BuildMessages(order, messages, lut, c);
    if out == None {
      return Rejected;
    }
    SameMessages(out.value, messages, c);
    var kept := CarryOver(out.value, NeededIds(messages, c), tables, c);
    return Built(out.value, kept);
  }

  method CarryOver(out: map<int, Message>, needed: set<int>, tables: seq<ValueTable>, c: Contracts)
    returns (kept: seq<ValueTable>)
    requires needed == out.Keys && forall id :: id in out ==> out[id].canId == id
    ensures kept == CarryTables(out, tables, c)
  {
    kept := [];
    var i := 0;
    while i < |tables|
      invariant 0 <= i <= |tables| && kept == CarryTables(out, tables[..i], c)
    {
      var t := tables[i];
      assert tables[..i + 1][..i] == tables[..i];
      if t.canId in needed && IsLive(out, t.canId, TargetName(t, c)) {
        kept := kept + [t.(signalName := TargetName(t, c))];
      }
      i := i + 1;
    }
    assert tables[..i] == tables;
  }

  // ======== meaning is preserved ========

  // Where an emitted signal comes from, and that nothing kept is lost.
  lemma {:induction false} CuratedFrom(id: int, signals: seq<Signal>, c: Contracts, j: nat) returns (i: nat)
    requires j < |CurateAll(id, signals, c)|
    ensures i < |signals| && Curate(id, signals[i], c) == Some(CurateAll(id, signals, c)[j])
  {
    var n := |signals| - 1;
    var rest := CurateAll(id, signals[..n], c);
    if j < |rest| {
      i := CuratedFrom(id, signals[..n], c, j);
    } else {
      i := n;
    }
  }

  lemma {:induction false} CuratedTo(id: int, signals: seq<Signal>, c: Contracts, i: nat) returns (j: nat)
    requires i < |signals| && Curate(id, signals[i], c).Some?
    ensures j < |CurateAll(id, signals, c)| && Curate(id, signals[i], c) == Some(CurateAll(id, signals, c)[j])
  {
    var n := |signals| - 1;
    if i < n {
      j := CuratedTo(id, signals[..n], c, i);
    } else {
      j := |CurateAll(id, signals[..n], c)|;
    }
  }

  // Two different upstream signals are never emitted under one name.
  lemma {:induction false} SourcesDiffer(id: int, signals: seq<Signal>, c: Contracts, i: nat, k: nat)
    requires i < k < |signals| && UniqueNames(CurateAll(id, signals, c))
    requires Curate(id, signals[i], c).Some? && Curate(id, signals[k], c).Some?
    ensures Curate(id, signals[i], c).value.name != Curate(id, signals[k], c).value.name
  {
    var n := |signals| - 1;
    var init, all := CurateAll(id, signals[..n], c), CurateAll(id, signals, c);
    assert forall x :: 0 <= x < |init| ==> all[x] == init[x];
    if k < n {
      SourcesDiffer(id, signals[..n], c, i, k);
    } else {
      var j := CuratedTo(id, signals[..n], c, i);
      assert all[j] == init[j] && all[|init|] == Curate(id, signals[k], c).value;
    }
  }

  /** Every emitted signal has the bits, scale and offset of one upstream signal on the same id; it is either
      that signal itself, wanted by name, or that signal under its alias. */
  lemma EmittedIsUpstream(messages: Messages, lut: map<SignalId, Signal>, tables: seq<ValueTable>, c: Contracts,
                          id: int, j: nat) returns (i: nat)
    requires var r := Aggregate(messages, lut, tables, c); r.Built? && id in r.messages && j < |r.messages[id].signals|
    ensures id in messages && i < |messages[id].signals|
    ensures var s, u := Aggregate(messages, lut, tables, c).messages[id].signals[j], messages[id].signals[i];
      && s == u.(name := s.name)
      && if (id, u.name) in c.aliases then s.name == c.aliases[(id, u.name)]
         else s.name == u.name && ((id, s.name) in c.required || (id, s.name) in c.optional)
  {
    i := CuratedFrom(id, messages[id].signals, c, j);
  }

  /** Names are unique on every id. */
  lemma EmittedNamesUnique(messages: Messages, lut: map<SignalId, Signal>, tables: seq<ValueTable>, c: Contracts,
                           id: int)
    requires var r := Aggregate(messages, lut, tables, c); r.Built? && id in r.messages
    ensures UniqueNames(Aggregate(messages, lut, tables, c).messages[id].signals)
  {
  }

  // The emitted form of an upstream signal that is wanted.
  lemma WantedIsEmitted(messages: Messages, lut: map<SignalId, Signal>, tables: seq<ValueTable>, c: Contracts,
                        wanted: SignalId) returns (s: Signal)
    requires Aggregate(messages, lut, tables, c).Built? && Indexes(lut, messages) && wanted in lut
    requires wanted in c.required || wanted in c.aliases
    ensures var r := Aggregate(messages, lut, tables, c);
      && wanted.0 in r.messages && s in r.messages[wanted.0].signals
      && s == lut[wanted].(name := if wanted in c.aliases then c.aliases[wanted] else wanted.1)
  {
    var (id, name) := wanted;
    assert (id, name) in lut;
    var i := LastNamedIsThere(messages[id].signals, name);
    assert id in NeededIds(messages, c);
    var j := CuratedTo(id, messages[id].signals, c, i);
    s := CurateAll(id, messages[id].signals, c)[j];
  }

  /** Every required signal that is not renamed away is emitted with its upstream meaning, and every alias target
      with the meaning of its source. */
  lemma RequiredIsEmitted(messages: Messages, lut: map<SignalId, Signal>, tables: seq<ValueTable>, c: Contracts,
                          wanted: SignalId) returns (s: Signal, source: SignalId)
    requires Aggregate(messages, lut, tables, c).Built? && Indexes(lut, messages)
    requires wanted in c.required && wanted !in c.aliases
    ensures var r := Aggregate(messages, lut, tables, c);
      wanted.0 in r.messages && s in r.messages[wanted.0].signals && s.name == wanted.1
    ensures source in lut && source.0 == wanted.0 && s.layout == lut[source].layout
    ensures source == wanted || (source in c.aliases && c.aliases[source] == wanted.1)
  {
    assert Reachable(wanted, lut, c);
    if wanted in lut {
      source := wanted;
    } else {
      source :| source in c.aliases && source.0 == wanted.0 && c.aliases[source] == wanted.1;
    }
    s := WantedIsEmitted(messages, lut, tables, c, source);
  }

  lemma IndexedIsPresent(lut: map<SignalId, Signal>, messages: Messages, s: SignalId)
    requires Indexes(lut, messages) && s in lut
    ensures s.0 in messages
  {
    var (id, name) := s;
    assert (id, name) in lut ==> id in messages && LastNamed(messages[id].signals, name).Some?;
  }

  /** With an index of the same messages, validation already rules out a missing message. */
  lemma NoIdIsAbsent(messages: Messages, lut: map<SignalId, Signal>, c: Contracts)
    requires Indexes(lut, messages) && ContractsHold(lut, c)
    ensures AllPresent(messages, c)
  {
    forall r | r in c.required
      ensures r.0 in messages
    {
      assert Reachable(r, lut, c);
      if r in lut {
        IndexedIsPresent(lut, messages, r);
      } else {
        var a :| a in c.aliases && a.0 == r.0 && c.aliases[a] == r.1;
        IndexedIsPresent(lut, messages, a);
      }
    }
    forall a | a in c.aliases
      ensures a.0 in messages
    {
      IndexedIsPresent(lut, messages, a);
    }
  }

  lemma {:induction false} CarriedFrom(out: map<int, Message>, tables: seq<ValueTable>, c: Contracts, j: nat)
    returns (i: nat)
    requires j < |CarryTables(out, tables, c)|
    ensures i < |tables| && IsLive(out, tables[i].canId, TargetName(tables[i], c))
    ensures CarryTables(out, tables, c)[j] == tables[i].(signalName := TargetName(tables[i], c))
  {
    var n := |tables| - 1;
    if j < |CarryTables(out, tables[..n], c)| {
      i := CarriedFrom(out, tables[..n], c, j);
    } else {
      i := n;
    }
  }

  // The signal a live name stands for is the one the index holds for the table's own name.
  lemma LiveMeaning(id: int, signals: seq<Signal>, lut: map<SignalId, Signal>, messages: Messages, c: Contracts,
                    name: string, j: nat)
    requires ContractsHold(lut, c) && Indexes(lut, messages) && id in messages && messages[id].signals == signals
    requires MessageAccepted(id, messages[id], lut, c)
    requires (id, name) in lut && j < |CurateAll(id, signals, c)|
    requires CurateAll(id, signals, c)[j].name == if (id, name) in c.aliases then c.aliases[(id, name)] else name
    ensures CurateAll(id, signals, c)[j].layout == lut[(id, name)].layout
  {
    var s := CurateAll(id, signals, c)[j];
    var i := CuratedFrom(id, signals, c, j);
    var k := LastNamedIsThere(signals, name);
    if Curate(id, signals[k], c).Some? && i < k && Curate(id, signals[k], c).value.name == s.name {
      SourcesDiffer(id, signals, c, i, k);
    } else if Curate(id, signals[k], c).Some? && k < i && Curate(id, signals[k], c).value.name == s.name {
      SourcesDiffer(id, signals, c, k, i);
    }
  }

  /** Every emitted value table keeps its entries and names a live signal of the same id, and that signal is laid
      out exactly as the upstream signal the table was written for, renamed or not. */
  lemma TablesKeepTheirMeaning(messages: Messages, lut: map<SignalId, Signal>, tables: seq<ValueTable>, c: Contracts,
                               j: nat) returns (i: nat, k: nat)
    requires Indexes(lut, messages)
    requires var r := Aggregate(messages, lut, tables, c); r.Built? && j < |r.tables|
    ensures var r := Aggregate(messages, lut, tables, c);
      var t := r.tables[j];
      && i < |tables| && t.entries == tables[i].entries && t.canId == tables[i].canId
      && t.canId in r.messages && k < |r.messages[t.canId].signals|
      && r.messages[t.canId].signals[k].name == t.signalName
      && ((t.canId, tables[i].signalName) in lut ==>
           r.messages[t.canId].signals[k].layout == lut[(t.canId, tables[i].signalName)].layout)
  {
    var out := CuratedMessages(messages, c);
    i := CarriedFrom(out, tables, c, j);
    var id, name := tables[i].canId, TargetName(tables[i], c);
    var m, x :| m in out && 0 <= x < |out[m].signals| && out[m].canId == id && out[m].signals[x].name == name;
    k := x;
    assert m == id;
    if (id, tables[i].signalName) in lut {
      LiveMeaning(id, messages[id].signals, lut, messages, c, tables[i].signalName, k);
    }
  }

  // ======== exactly what is emitted ========

  // The name an upstream signal is known by downstream.
  function AliasOr(id: int, name: string, c: Contracts): string {
    if (id, name) in c.aliases then c.aliases[(id, name)] else name
  }

  // A signal called name is emitted on id.
  ghost predicate Emitted(out: map<int, Message>, id: int, name: string) {
    id in out && exists j :: 0 <= j < |out[id].signals| && out[id].signals[j].name == name
  }

  lemma LiveIsEmitted(out: map<int, Message>, id: int, name: string)
    requires forall k :: k in out ==> out[k].canId == k
    ensures IsLive(out, id, name) <==> Emitted(out, id, name)
  {
    if Emitted(out, id, name) {
      var j :| 0 <= j < |out[id].signals| && out[id].signals[j].name == name;
      assert out[id].canId == id;
    }
  }

  ghost function TakesTable(out: map<int, Message>, c: Contracts): ValueTable -> bool {
    (t: ValueTable) => Emitted(out, t.canId, AliasOr(t.canId, t.signalName, c))
  }

  ghost function MadeTable(c: Contracts): (ValueTable, ValueTable) -> bool {
    (t: ValueTable, k: ValueTable) => k == ValueTable(t.canId, AliasOr(t.canId, t.signalName, c), t.entries)
  }

  lemma {:induction false} CarrySelects(out: map<int, Message>, tables: seq<ValueTable>, c: Contracts)
    returns (src: seq<nat>)
    requires forall k :: k in out ==> out[k].canId == k
    ensures Selected(tables, CarryTables(out, tables, c), src, TakesTable(out, c), MadeTable(c))
  {
    if tables == [] {
      src := [];
    } else {
      var n := |tables| - 1;
      var init, t := tables[..n], tables[n];
      assert tables == init + [t];
      var takes, made := TakesTable(out, c), MadeTable(c);
      src := CarrySelects(out, init, c);
      LiveIsEmitted(out, t.canId, TargetName(t, c));
      var before := CarryTables(out, init, c);
      if takes(t) {
        SelectedTake(init, t, before, t.(signalName := TargetName(t, c)), src, takes, made);
        src := src + [n];
      } else {
        SelectedSkip(init, t, before, src, takes, made);
      }
    }
  }

  /** The carried value tables, exactly: in upstream order, each with its entries and under its alias target or its
      own name, and an upstream table is among them if and only if a signal of that name is emitted on its id. */
  lemma TablesExactly(messages: Messages, lut: map<SignalId, Signal>, tables: seq<ValueTable>, c: Contracts)
    returns (src: seq<nat>)
    requires Aggregate(messages, lut, tables, c).Built?
    ensures var r := Aggregate(messages, lut, tables, c);
      && Increasing(src, |tables|) && |src| == |r.tables|
      && (forall j :: 0 <= j < |src| ==>
            var t := tables[src[j]];
            r.tables[j] == ValueTable(t.canId, AliasOr(t.canId, t.signalName, c), t.entries))
      && (forall i :: 0 <= i < |tables| ==>
            (i in src <==> Emitted(r.messages, tables[i].canId, AliasOr(tables[i].canId, tables[i].signalName, c))))
  {
    src := CarrySelects(CuratedMessages(messages, c), tables, c);
  }

  // The contracts ask for an upstream signal: under an alias, by name, or optionally.
  predicate Wanted(id: int, name: string, c: Contracts) {
    (id, name) in c.aliases || (id, name) in c.required || (id, name) in c.optional
  }

  ghost function TakesSignal(id: int, c: Contracts): Signal -> bool {
    (s: Signal) => Wanted(id, s.name, c)
  }

  ghost function MadeSignal(id: int, c: Contracts): (Signal, Signal) -> bool {
    (s: Signal, k: Signal) => k == s.(name := AliasOr(id, s.name, c))
  }

  lemma {:induction false} CurateSelects(id: int, signals: seq<Signal>, c: Contracts) returns (src: seq<nat>)
    ensures Selected(signals, CurateAll(id, signals, c), src, TakesSignal(id, c), MadeSignal(id, c))
  {
    if signals == [] {
      src := [];
    } else {
      var n := |signals| - 1;
      var init, s := signals[..n], signals[n];
      assert signals == init + [s];
      var takes, made := TakesSignal(id, c), MadeSignal(id, c);
      src := CurateSelects(id, init, c);
      var before := CurateAll(id, init, c);
      if takes(s) {
        SelectedTake(init, s, before, s.(name := AliasOr(id, s.name, c)), src, takes, made);
        src := src + [n];
      } else {
        SelectedSkip(init, s, before, src, takes, made);
      }
    }
  }

  /** The emitted messages, exactly: those of the ids that a required or aliased signal, or an optional one whose
      message is there upstream, lies on. Each keeps its header, and its signals are, in upstream order, exactly
      the wanted ones, unchanged but for their aliases. */
  lemma SignalsExactly(messages: Messages, lut: map<SignalId, Signal>, tables: seq<ValueTable>, c: Contracts, id: int)
    returns (src: seq<nat>)
    requires Aggregate(messages, lut, tables, c).Built?
    ensures var r := Aggregate(messages, lut, tables, c);
      && (id in r.messages <==>
            exists name :: (id, name) in c.required || (id, name) in c.aliases
                           || ((id, name) in c.optional && id in messages))
      && (id in r.messages ==>
            && id in messages
            && r.messages[id] == messages[id].(signals := r.messages[id].signals)
            && Increasing(src, |messages[id].signals|) && |src| == |r.messages[id].signals|
            && (forall j :: 0 <= j < |src| ==>
                  var s := messages[id].signals[src[j]];
                  r.messages[id].signals[j] == s.(name := AliasOr(id, s.name, c)))
            && (forall i :: 0 <= i < |messages[id].signals| ==>
                  (i in src <==> Wanted(id, messages[id].signals[i].name, c))))
  {
    NeededExactly(messages, c, id);
    if id in NeededIds(messages, c) {
      src := CurateSelects(id, messages[id].signals, c);
    } else {
      src := [];
    }
  }

  lemma NeededExactly(messages: Messages, c: Contracts, id: int)
    ensures id in NeededIds(messages, c) <==>
      exists name :: (id, name) in c.required || (id, name) in c.aliases
                     || ((id, name) in c.optional && id in messages)
  {
    if id in NeededIds(messages, c) {
      if r :| r in c.required && r.0 == id {
        assert (id, r.1) in c.required;
      } else if a :| a in c.aliases && a.0 == id {
        assert (id, a.1) in c.aliases;
      } else {
        var o :| o in c.optional && o.0 == id;
        assert (id, o.1) in c.optional;
      }
    }
    if name :| (id, name) in c.required || (id, name) in c.aliases || ((id, name) in c.optional && id in messages) {
      assert (id, name).0 == id;
    }
  }

  // ======== exactly what is rejected ========

  predicate HasSignal(messages: Messages, id: int, name: string) {
    id in messages && exists i :: 0 <= i < |messages[id].signals| && messages[id].signals[i].name == name
  }

  // The k-th signal is the last of that name.
  predicate IsLast(signals: seq<Signal>, k: nat, name: string)
    requires k < |signals|
  {
    signals[k].name == name && forall j :: k < j < |signals| ==> signals[j].name != name
  }

  lemma {:induction false} LastNamedIs(signals: seq<Signal>, name: string)
    ensures LastNamed(signals, name).Some? <==> exists i :: 0 <= i < |signals| && signals[i].name == name
    ensures forall k :: 0 <= k < |signals| && IsLast(signals, k, name) ==> LastNamed(signals, name) == Some(signals[k])
    ensures LastNamed(signals, name).Some? ==> exists k :: 0 <= k < |signals| && IsLast(signals, k, name)
  {
    if signals != [] {
      var n := |signals| - 1;
      var init := signals[..n];
      LastNamedIs(init, name);
      if signals[n].name == name {
        assert IsLast(signals, n, name);
      } else {
        forall k | 0 <= k < |signals| && IsLast(signals, k, name)
          ensures LastNamed(signals, name) == Some(signals[k])
        {
          assert IsLast(init, k, name);
        }
        if LastNamed(signals, name).Some? {
          var k :| 0 <= k < |init| && IsLast(init, k, name);
          assert IsLast(signals, k, name);
        }
      }
    }
  }

  lemma IndexHolds(messages: Messages, lut: map<SignalId, Signal>, id: int, name: string)
    requires Indexes(lut, messages)
    ensures (id, name) in lut <==> HasSignal(messages, id, name)
    ensures id in messages ==> forall k :: 0 <= k < |messages[id].signals| && IsLast(messages[id].signals, k, name) ==>
      (id, name) in lut && lut[(id, name)] == messages[id].signals[k]
    ensures (id, name) in lut ==>
      exists k :: 0 <= k < |messages[id].signals| && IsLast(messages[id].signals, k, name)
  {
    if id in messages {
      LastNamedIs(messages[id].signals, name);
    }
  }

  // A native signal of an alias's target name, the last of that name counting, is laid out like each signal of
  // the source's name.
  predicate NoDrift(messages: Messages, c: Contracts) {
    forall a, i, k :: a in c.aliases && a.0 in messages
      && 0 <= i < |messages[a.0].signals| && messages[a.0].signals[i].name == a.1
      && 0 <= k < |messages[a.0].signals| && IsLast(messages[a.0].signals, k, c.aliases[a])
      ==> messages[a.0].signals[i].layout == messages[a.0].signals[k].layout
  }

  // No two signals of one message are emitted under one name.
  predicate NamesApart(id: int, signals: seq<Signal>, c: Contracts) {
    forall i, k :: 0 <= i < k < |signals| && Wanted(id, signals[i].name, c) && Wanted(id, signals[k].name, c)
      ==> AliasOr(id, signals[i].name, c) != AliasOr(id, signals[k].name, c)
  }

  lemma UniqueApart(id: int, signals: seq<Signal>, c: Contracts, i: nat, k: nat)
    requires UniqueNames(CurateAll(id, signals, c)) && i < k < |signals|
    requires Wanted(id, signals[i].name, c) && Wanted(id, signals[k].name, c)
    ensures AliasOr(id, signals[i].name, c) != AliasOr(id, signals[k].name, c)
  {
    var src := CurateSelects(id, signals, c);
    var all := CurateAll(id, signals, c);
    assert TakesSignal(id, c)(signals[i]) && TakesSignal(id, c)(signals[k]);
    var x: nat :| x < |src| && src[x] == i;
    var y: nat :| y < |src| && src[y] == k;
    Sources(id, signals, c, src, x);
    Sources(id, signals, c, src, y);
    assert all[x].name != all[y].name;
  }

  lemma UniqueExactly(id: int, signals: seq<Signal>, c: Contracts)
    ensures UniqueNames(CurateAll(id, signals, c)) <==> NamesApart(id, signals, c)
  {
    var src := CurateSelects(id, signals, c);
    var all := CurateAll(id, signals, c);
    if !UniqueNames(all) {
      var x, y :| 0 <= x < y < |all| && all[x].name == all[y].name;
      Sources(id, signals, c, src, x);
      Sources(id, signals, c, src, y);
      assert src[x] < src[y];
    } else {
      forall i, k | 0 <= i < k < |signals| && Wanted(id, signals[i].name, c) && Wanted(id, signals[k].name, c)
        ensures AliasOr(id, signals[i].name, c) != AliasOr(id, signals[k].name, c)
      {
        UniqueApart(id, signals, c, i, k);
      }
    }
  }

  // The j-th emitted signal comes from a wanted one, under its downstream name.
  lemma Sources(id: int, signals: seq<Signal>, c: Contracts, src: seq<nat>, j: nat)
    requires Selected(signals, CurateAll(id, signals, c), src, TakesSignal(id, c), MadeSignal(id, c)) && j < |src|
    ensures src[j] < |signals| && Wanted(id, signals[src[j]].name, c)
    ensures CurateAll(id, signals, c)[j].name == AliasOr(id, signals[src[j]].name, c)
  {
    assert src[j] in src && TakesSignal(id, c)(signals[src[j]]);
    assert MadeSignal(id, c)(signals[src[j]], CurateAll(id, signals, c)[j]);
  }

  // What the contracts demand of the upstream messages.
  predicate Demands(messages: Messages, c: Contracts) {
    && (forall a :: a in c.aliases ==> HasSignal(messages, a.0, a.1))
    && (forall a, b :: a in c.aliases && b in c.aliases && c.aliases[a] == c.aliases[b] ==> a == b)
    && (forall r :: r in c.required ==>
          HasSignal(messages, r.0, r.1) || exists a :: a in c.aliases && a.0 == r.0 && c.aliases[a] == r.1)
  }

  lemma DemandsExactly(messages: Messages, lut: map<SignalId, Signal>, c: Contracts)
    requires Indexes(lut, messages)
    ensures ContractsHold(lut, c) <==> Demands(messages, c)
  {
    forall s: SignalId
      ensures s in lut <==> HasSignal(messages, s.0, s.1)
    {
      IndexHolds(messages, lut, s.0, s.1);
      assert s == (s.0, s.1);
    }
  }

  lemma DriftExactly(messages: Messages, lut: map<SignalId, Signal>, c: Contracts)
    requires Indexes(lut, messages)
    ensures NoDrift(messages, c) <==>
      forall id, i :: id in messages && 0 <= i < |messages[id].signals| ==> !Drifts(id, messages[id].signals[i], lut, c)
  {
    if NoDrift(messages, c) {
      forall id, i | id in messages && 0 <= i < |messages[id].signals|
        ensures !Drifts(id, messages[id].signals[i], lut, c)
      {
        var s := messages[id].signals[i];
        if (id, s.name) in c.aliases {
          var a := (id, s.name);
          IndexHolds(messages, lut, id, c.aliases[a]);
          if (id, c.aliases[a]) in lut {
            var k :| 0 <= k < |messages[id].signals| && IsLast(messages[id].signals, k, c.aliases[a]);
            assert a in c.aliases && a.0 in messages && messages[a.0].signals[i].name == a.1;
          }
        }
      }
    }
    forall a, i, k | (forall id, i :: id in messages && 0 <= i < |messages[id].signals| ==>
                        !Drifts(id, messages[id].signals[i], lut, c))
      && a in c.aliases && a.0 in messages
      && 0 <= i < |messages[a.0].signals| && messages[a.0].signals[i].name == a.1
      && 0 <= k < |messages[a.0].signals| && IsLast(messages[a.0].signals, k, c.aliases[a])
      ensures messages[a.0].signals[i].layout == messages[a.0].signals[k].layout
    {
      IndexHolds(messages, lut, a.0, c.aliases[a]);
      assert a == (a.0, a.1);
      assert !Drifts(a.0, messages[a.0].signals[i], lut, c);
    }
  }

  /** The builder succeeds exactly when the contracts are met, in terms of the upstream messages alone: every alias
      source exists, no two aliases share a target, every required signal exists or is an alias target on its id,
      no alias target exists natively with another layout, and no message emits one name twice. */
  lemma BuiltExactly(messages: Messages, lut: map<SignalId, Signal>, tables: seq<ValueTable>, c: Contracts)
    requires Indexes(lut, messages)
    ensures Aggregate(messages, lut, tables, c).Built? <==>
      && Demands(messages, c) && NoDrift(messages, c)
      && forall id :: id in messages ==> NamesApart(id, messages[id].signals, c)
  {
    DemandsExactly(messages, lut, c);
    DriftExactly(messages, lut, c);
    forall id | id in messages
      ensures UniqueNames(CurateAll(id, messages[id].signals, c)) <==> NamesApart(id, messages[id].signals, c)
      ensures id !in NeededIds(messages, c) ==> MessageAccepted(id, messages[id], lut, c)
    {
      UniqueExactly(id, messages[id].signals, c);
      if id !in NeededIds(messages, c) {
        UnneededAccepted(messages, lut, c, id);
      }
    }
    if ContractsHold(lut, c) {
      NoIdIsAbsent(messages, lut, c);
    }
  }

  lemma UnneededAccepted(messages: Messages, lut: map<SignalId, Signal>, c: Contracts, id: int)
    requires id in messages && id !in NeededIds(messages, c)
    ensures MessageAccepted(id, messages[id], lut, c)
  {
    NeededExactly(messages, c, id);
    UniqueExactly(id, messages[id].signals, c);
  }
}
