/** The TCP command server: one adopted client, line assembly across ticks, PING answered in place.
    The class is proved against the step function; the lemmas are about whole client sessions. */
module TcpSession {
  import opened Text
  import opened Wrappers

  // A socket handed out by accept(); ids are distinct per connection.
  datatype Client = Client(id: nat, ip: string)

  // One tick of the environment. firstLine is what the blocking AUTH read returned, incoming whatever
  // bytes the non-blocking read delivered, connected what the adopted socket reports.
  datatype Event =
    | Tick(accepted: Option<Client>, firstLine: string, token: string, connected: bool, incoming: string)
    | Shutdown

  datatype Effect =
    | StopSocket(id: nat)
    | SetNoDelay(id: nat)
    | SetTimeout(id: nat, ms: nat)
    | Println(id: nat, line: string)
    | Flush(id: nat)
    | SetMonitor(active: bool)
    | ClientConnected(ip: string)
    | AuthFailed(ip: string)
    | ClientDisconnected(ip: string)
    | ResetBackoff
    | Command(cmd: string)

  datatype Manager = Manager(current: Option<Client>, clientIp: string, partialLine: string)
  datatype Outcome = Outcome(manager: Manager, fx: seq<Effect>)

  const CR := '\r'
  const WHITESPACE: set<char> := {' ', '\t', '\r', '\n', 11 as char, 12 as char}
  const AUTH_TIMEOUT_MS: nat := 5000
  const COMMAND_TIMEOUT_MS: nat := 100

  predicate IsValidAuthToken(received: string, token: string) {
    received == "AUTH " + token
  }

  // The reaction to one complete line: PING is answered with the same sequence text, anything else that is
  // not blank goes to the command dispatcher.
  function React(id: nat, line: string): seq<Effect> {
    Answer(id, Trim(line, WHITESPACE))
  }

  function Answer(id: nat, cmd: string): seq<Effect> {
    if cmd == "" then []
    else if "PING " <= cmd then [Println(id, "PONG " + cmd[5..]), Flush(id)]
    else [Command(cmd)]
  }

  function ReactAll(id: nat, lines: seq<string>): seq<Effect> {
    if lines == [] then [] else React(id, lines[0]) + ReactAll(id, lines[1..])
  }

  // A new arrival always replaces the current client, then has to authenticate.
  function Greet(m: Manager, e: Event): Outcome
    requires e.Tick? && e.accepted.Some?
  {
    var c := e.accepted.value;
    var takeover := (if m.current.Some? then [StopSocket(m.current.value.id)] else [])
                  + [SetNoDelay(c.id), SetMonitor(false), SetTimeout(c.id, AUTH_TIMEOUT_MS),
                     SetTimeout(c.id, COMMAND_TIMEOUT_MS)];
    if IsValidAuthToken(Trim(e.firstLine, WHITESPACE), e.token)
    then Outcome(Manager(Some(c), c.ip, ""),
                 takeover + [Println(c.id, "OK"), Flush(c.id), SetMonitor(true), ClientConnected(c.ip)])
    else Outcome(Manager(None, "", ""),
                 takeover + [Println(c.id, "ERROR unauthorized"), Flush(c.id), StopSocket(c.id), AuthFailed(c.ip)])
  }

  function Receive(m: Manager, id: nat, incoming: string): Outcome {
    if incoming == "" then Outcome(m, [])
    else Outcome(m.(partialLine := Rest(m.partialLine + incoming, CR)),
                 ReactAll(id, Pieces(m.partialLine + incoming, CR)))
  }

  function Step(m: Manager, e: Event): Outcome {
    match e
    case Tick(accepted, _, _, connected, incoming) =>
      if accepted.Some? then Greet(m, e)
      else if m.current.None? then Outcome(m, [])
      else if connected then Receive(m, m.current.value.id, incoming)
      else Outcome(Manager(None, "", ""), [SetMonitor(false), ResetBackoff, ClientDisconnected(m.clientIp)])
    case Shutdown =>
      if m.current.Some? then Outcome(m.(current := None), [StopSocket(m.current.value.id)]) else Outcome(m, [])
  }

  lemma NextLine(id: nat, s: string)
    requires IndexOf(s, CR) < |s|
    ensures var i := IndexOf(s, CR);
      && Rest(s, CR) == Rest(s[i + 1..], CR)
      && ReactAll(id, Pieces(s, CR)) == React(id, s[..i]) + ReactAll(id, Pieces(s[i + 1..], CR))
  {
    var i := IndexOf(s, CR);
    assert Pieces(s, CR)[1..] == Pieces(s[i + 1..], CR);
  }

  // ---- the stateful manager ----

  class TcpServerManager {
    var current: Option<Client>
    var clientIp: string
    var partialLine: string
    var fx: seq<Effect>

    function View(): Manager
      reads this
    {
      Manager(current, clientIp, partialLine)
    }

    constructor ()
      ensures View() == Manager(None, "", "") && fx == []
    {
      current, clientIp, partialLine, fx := None, "", "", [];
    }

    method AnswerCommand(id: nat, cmd: string)
      modifies this`fx
      ensures fx == old(fx) + Answer(id, cmd)
    {
      if cmd != "" {
        if "PING " <= cmd {
          var sequence := cmd[5..];
          fx := fx + [Println(id, "PONG " + sequence), Flush(id)];
        } else {
          fx := fx + [Command(cmd)];
        }
      }
    }

    // Consumes partialLine through each delimiter, reacting to one line at a time.
    method DispatchLines(id: nat)
      modifies this`partialLine, this`fx
      ensures partialLine == Rest(old(partialLine), CR)
      ensures fx == old(fx) + ReactAll(id, Pieces(old(partialLine), CR))
    {
      var pos := IndexOf(partialLine, CR);
      ghost var target := old(fx) + ReactAll(id, Pieces(partialLine, CR));
      while pos < |partialLine|
        invariant pos == IndexOf(partialLine, CR)
        invariant Rest(partialLine, CR) == Rest(old(partialLine), CR)
        invariant fx + ReactAll(id, Pieces(partialLine, CR)) == target
        decreases |partialLine|
      {
        NextLine(id, partialLine);
        var line := partialLine[..pos];
        partialLine := partialLine[pos + 1..];
        Assoc(fx, React(id, line), ReactAll(id, Pieces(partialLine, CR)));
        AnswerCommand(id, Trim(line, WHITESPACE));
        pos := IndexOf(partialLine, CR);
      }
    }

    // A new arrival: LAST-WINS takeover, then authentication.
    method Adopt(e: Event)
      requires e.Tick? && e.accepted.Some?
      modifies this
      ensures View() == Greet(old(View()), e).manager
      ensures fx == old(fx) + Greet(old(View()), e).fx
    {
      var next := e.accepted.value;
      if current.Some? {
        fx := fx + [StopSocket(current.value.id)];
      }
      clientIp := next.ip;
      current := Some(next);
      fx := fx + [SetNoDelay(next.id), SetMonitor(false)];
      partialLine := "";
      fx := fx + [SetTimeout(next.id, AUTH_TIMEOUT_MS)];
      var firstLine := Trim(e.firstLine, WHITESPACE);
      fx := fx + [SetTimeout(next.id, COMMAND_TIMEOUT_MS)];
      if IsValidAuthToken(firstLine, e.token) {
        fx := fx + [Println(next.id, "OK"), Flush(next.id), SetMonitor(true), ClientConnected(clientIp)];
      } else {
        fx := fx + [Println(next.id, "ERROR unauthorized"), Flush(next.id), StopSocket(next.id), AuthFailed(clientIp)];
        current := None;
        clientIp := "";
      }
    }

    method Cycle(e: Event)
      requires e.Tick?
      modifies this
      ensures View() == Step(old(View()), e).manager
      ensures fx == old(fx) + Step(old(View()), e).fx
    {
      if e.accepted.Some? {
        Adopt(e);
      } else if current.Some? && e.connected {
        if e.incoming != "" {
          partialLine := partialLine + e.incoming;
          DispatchLines(current.value.id);
        }
      } else if current.Some? {
        fx := fx + [SetMonitor(false), ResetBackoff, ClientDisconnected(clientIp)];
        partialLine := "";
        current := None;
        clientIp := "";
      }
    }

    method Stop()
      modifies this
      ensures View() == Step(old(View()), Shutdown).manager
      ensures fx == old(fx) + Step(old(View()), Shutdown).fx
    {
      if current.Some? {
        fx := fx + [StopSocket(current.value.id)];
        current := None;
      }
    }
  }

  // ---- whole sessions ----

  // ms[k] is the manager before event k, outs[k] what it did then, starting from a fresh one.
  ghost predicate IsTrace(ms: seq<Manager>, es: seq<Event>, outs: seq<seq<Effect>>) {
    && |ms| == |es| + 1 == |outs| + 1
    && ms[0] == Manager(None, "", "")
    && (forall k :: 0 <= k < |es| ==> Outcome(ms[k + 1], outs[k]) == Step(ms[k], es[k]))
  }

  // Event i adopted client c: it was accepted and its first line was AUTH with the current token.
  predicate Adopts(e: Event, c: Client) {
    e.Tick? && e.accepted == Some(c) && Trim(e.firstLine, WHITESPACE) == "AUTH " + e.token
  }

  // No other arrival and no drop: the adopted client stays.
  predicate Keeps(e: Event) {
    e.Tick? && e.accepted.None? && e.connected
  }

  // What one step does, as far as sessions are concerned.
  ghost predicate SessionStep(m: Manager, e: Event, m': Manager, out: seq<Effect>) {
    && (m'.current.Some? ==>
          if m'.current == m.current && Keeps(e) then m'.clientIp == m.clientIp
          else Adopts(e, m'.current.value) && m'.clientIp == m'.current.value.ip)
    && (e.Tick? && e.accepted.Some? && Adopts(e, e.accepted.value) ==>
          m' == Manager(Some(e.accepted.value), e.accepted.value.ip, ""))
    && (m.current.Some? && (m'.current != m.current || (e.Tick? && e.accepted.Some?)) ==>
          StopSocket(m.current.value.id) in out || (e.Tick? && e.accepted.None? && !e.connected))
    && (e.Tick? && e.accepted.Some? && !Adopts(e, e.accepted.value) ==>
          m'.current.None? && StopSocket(e.accepted.value.id) in out)
    && (m.current.Some? && Keeps(e) && Lacks(m.partialLine, CR) ==>
          && m'.current == m.current
          && m'.partialLine == Rest(m.partialLine + e.incoming, CR)
          && out == ReactAll(m.current.value.id, Pieces(m.partialLine + e.incoming, CR)))
    && (Lacks(m.partialLine, CR) ==> Lacks(m'.partialLine, CR))
  }

  lemma StepsKeepSessions(m: Manager, e: Event)
    ensures SessionStep(m, e, Step(m, e).manager, Step(m, e).fx)
  {
    if m.current.Some? && Keeps(e) && e.incoming == "" {
      assert m.partialLine + "" == m.partialLine;
      if Lacks(m.partialLine, CR) {
        SplitNone(m.partialLine, CR);
      }
    }
  }

  ghost predicate SessionSteps(ms: seq<Manager>, es: seq<Event>, outs: seq<seq<Effect>>) {
    && |ms| == |es| + 1 == |outs| + 1
    && ms[0] == Manager(None, "", "")
    && (forall k :: 0 <= k < |es| ==> SessionStep(ms[k], es[k], ms[k + 1], outs[k]))
  }

  lemma TraceKeepsSessions(ms: seq<Manager>, es: seq<Event>, outs: seq<seq<Effect>>)
    requires IsTrace(ms, es, outs)
    ensures SessionSteps(ms, es, outs)
  {
    forall k | 0 <= k < |es|
      ensures SessionStep(ms[k], es[k], ms[k + 1], outs[k])
    {
      StepsKeepSessions(ms[k], es[k]);
    }
  }

  // Event i adopted the client held before event k, and nothing disturbed it in between.
  ghost predicate AdoptedAt(ms: seq<Manager>, es: seq<Event>, k: nat, i: nat)
    requires k < |ms| == |es| + 1
  {
    && i < k && ms[k].current.Some? && Adopts(es[i], ms[k].current.value)
    && (forall m :: i < m < k ==> Keeps(es[m]))
    && (forall m :: i < m <= k ==> ms[m].current == ms[k].current)
  }

  lemma {:induction false} HeldClient(ms: seq<Manager>, es: seq<Event>, outs: seq<seq<Effect>>, k: nat)
    requires SessionSteps(ms, es, outs) && k <= |es|
    ensures Lacks(ms[k].partialLine, CR)
    ensures ms[k].current.Some? ==>
      ms[k].clientIp == ms[k].current.value.ip && exists i: nat :: AdoptedAt(ms, es, k, i)
  {
    if k > 0 {
      HeldClient(ms, es, outs, k - 1);
      assert SessionStep(ms[k - 1], es[k - 1], ms[k], outs[k - 1]);
      if ms[k].current.Some? {
        if ms[k].current == ms[k - 1].current && Keeps(es[k - 1]) {
          var i: nat :| AdoptedAt(ms, es, k - 1, i);
          assert AdoptedAt(ms, es, k, i);
        } else {
          assert AdoptedAt(ms, es, k, k - 1);
        }
      }
    }
  }

  /** In every run, a held client is the latest arrival and its first line was AUTH with the token of that
      moment; the carry-over never holds a CR. */
  lemma HeldClientAuthenticated(ms: seq<Manager>, es: seq<Event>, outs: seq<seq<Effect>>, k: nat)
    requires IsTrace(ms, es, outs) && k <= |es|
    ensures Lacks(ms[k].partialLine, CR)
    ensures ms[k].current.Some? ==>
      ms[k].clientIp == ms[k].current.value.ip && exists i: nat :: AdoptedAt(ms, es, k, i)
  {
    TraceKeepsSessions(ms, es, outs);
    HeldClient(ms, es, outs, k);
  }

  /** The single slot never leaks a live socket: a client that is no longer held was stopped in that very
      step, unless its own socket reported the drop; a refused arrival is stopped at once. */
  lemma NoSocketLeftOpen(ms: seq<Manager>, es: seq<Event>, outs: seq<seq<Effect>>, k: nat)
    requires IsTrace(ms, es, outs) && k < |es|
    ensures ms[k].current.Some? && ms[k + 1].current != ms[k].current ==>
      StopSocket(ms[k].current.value.id) in outs[k]
      || (es[k].Tick? && es[k].accepted.None? && !es[k].connected)
    ensures es[k].Tick? && es[k].accepted.Some? && !Adopts(es[k], es[k].accepted.value) ==>
      ms[k + 1].current.None? && StopSocket(es[k].accepted.value.id) in outs[k]
  {
    TraceKeepsSessions(ms, es, outs);
    assert SessionStep(ms[k], es[k], ms[k + 1], outs[k]);
  }

  /** What an arrival meets, whatever client is held: a client held before is stopped first. If the first line,
      trimmed, is exactly AUTH and the token of the moment, the arrival is told OK, held with nothing carried over,
      and the stream is switched on. Anything else is told ERROR unauthorized, stopped, and not held. */
  lemma ArrivalExactly(m: Manager, e: Event)
    requires e.Tick? && e.accepted.Some?
    ensures var o, c := Step(m, e), e.accepted.value;
      var authentic := Trim(e.firstLine, WHITESPACE) == "AUTH " + e.token;
      && o.manager == (if authentic then Manager(Some(c), c.ip, "") else Manager(None, "", ""))
      && o.fx == (if m.current.Some? then [StopSocket(m.current.value.id)] else [])
                 + [SetNoDelay(c.id), SetMonitor(false), SetTimeout(c.id, 5000), SetTimeout(c.id, 100)]
                 + if authentic then [Println(c.id, "OK"), Flush(c.id), SetMonitor(true), ClientConnected(c.ip)]
                   else [Println(c.id, "ERROR unauthorized"), Flush(c.id), StopSocket(c.id), AuthFailed(c.ip)]
  {
  }

  /** A client that dropped is released with the stream switched off, discovery restarted and the drop reported;
      a shutdown stops the client held; without a client nothing happens. */
  lemma ReleaseExactly(m: Manager, e: Event)
    requires e.Shutdown? || (e.accepted.None? && (m.current.Some? ==> !e.connected))
    ensures var o := Step(m, e);
      && (m.current.None? ==> o == Outcome(m, []))
      && (m.current.Some? && e.Tick? ==>
            o == Outcome(Manager(None, "", ""), [SetMonitor(false), ResetBackoff, ClientDisconnected(m.clientIp)]))
      && (m.current.Some? && e.Shutdown? ==>
            o.manager.current.None? && o.fx == [StopSocket(m.current.value.id)])
  {
  }

  // What the client sent in ticks [from, to).
  ghost function Received(es: seq<Event>, from: nat, to: nat): string
    requires from <= to <= |es| && forall m :: from <= m < to ==> es[m].Tick?
  {
    if from == to then "" else Received(es, from, to - 1) + es[to - 1].incoming
  }

  // What the manager did in events [from, to).
  ghost function Done(outs: seq<seq<Effect>>, from: nat, to: nat): seq<Effect>
    requires from <= to <= |outs|
  {
    if from == to then [] else Done(outs, from, to - 1) + outs[to - 1]
  }

  // Event i adopted c, and it was neither replaced nor dropped before event k.
  ghost predicate Session(es: seq<Event>, c: Client, i: nat, k: nat) {
    i < k <= |es| && Adopts(es[i], c) && forall m :: i < m < k ==> Keeps(es[m])
  }

  lemma {:induction false} ReactAllAppend(id: nat, a: seq<string>, b: seq<string>)
    ensures ReactAll(id, a + b) == ReactAll(id, a) + ReactAll(id, b)
  {
    if a == [] {
      assert a + b == b;
    } else {
      assert (a + b)[1..] == a[1..] + b;
      ReactAllAppend(id, a[1..], b);
    }
  }

  lemma {:induction false} SessionBatch(ms: seq<Manager>, es: seq<Event>, outs: seq<seq<Effect>>, c: Client,
                                        i: nat, k: nat)
    requires SessionSteps(ms, es, outs) && Session(es, c, i, k)
    ensures ms[k].current == Some(c)
    ensures ms[k].partialLine == Rest(Received(es, i + 1, k), CR)
    ensures Done(outs, i + 1, k) == ReactAll(c.id, Pieces(Received(es, i + 1, k), CR))
  {
    assert SessionStep(ms[k - 1], es[k - 1], ms[k], outs[k - 1]);
    if k == i + 1 {
      SplitNone<char>("", CR);
    } else {
      SessionBatch(ms, es, outs, c, i, k - 1);
      var before, now := Received(es, i + 1, k - 1), es[k - 1].incoming;
      SplitAppend(before, now, CR);
      ReactAllAppend(c.id, Pieces(before, CR), Pieces(Rest(before, CR) + now, CR));
    }
  }

  /** However its bytes were chunked over ticks, what a client's session dispatches and answers is the
      reaction to the CR-split of everything read from that client after its AUTH line, and of nothing
      else; the carry-over is the unfinished last line. */
  lemma SessionIsBatch(ms: seq<Manager>, es: seq<Event>, outs: seq<seq<Effect>>, c: Client, i: nat, k: nat)
    requires IsTrace(ms, es, outs) && Session(es, c, i, k)
    ensures ms[k].current == Some(c)
    ensures ms[k].partialLine == Rest(Received(es, i + 1, k), '\r')
    ensures Done(outs, i + 1, k) == ReactAll(c.id, Pieces(Received(es, i + 1, k), '\r'))
  {
    TraceKeepsSessions(ms, es, outs);
    SessionBatch(ms, es, outs, c, i, k);
  }

  // The non-blank lines, trimmed.
  function Commands(lines: seq<string>): seq<string> {
    if lines == [] then [] else
      (if Trim(lines[0], WHITESPACE) == "" then [] else [Trim(lines[0], WHITESPACE)]) + Commands(lines[1..])
  }

  // Replies and dispatches read back as command lines.
  function AsCommands(fx: seq<Effect>): seq<string> {
    if fx == [] then [] else
      (match fx[0]
       case Command(cmd) => [cmd]
       case Println(_, line) => if "PONG " <= line then ["PING " + line[5..]] else []
       case _ => []) + AsCommands(fx[1..])
  }

  lemma {:induction false} AsCommandsAppend(a: seq<Effect>, b: seq<Effect>)
    ensures AsCommands(a + b) == AsCommands(a) + AsCommands(b)
  {
    if a == [] {
      assert a + b == b;
    } else {
      assert (a + b)[1..] == a[1..] + b;
      AsCommandsAppend(a[1..], b);
    }
  }

  lemma AnswerAsCommand(id: nat, cmd: string)
    ensures AsCommands(Answer(id, cmd)) == if cmd == "" then [] else [cmd]
  {
    if cmd != "" && "PING " <= cmd {
      var pong := "PONG " + cmd[5..];
      var fx := [Println(id, pong), Flush(id)];
      assert pong[5..] == cmd[5..];
      assert cmd == "PING " + cmd[5..];
      assert fx[1..] == [Flush(id)];
      assert AsCommands([Flush(id)]) == [] + AsCommands([]);
    } else if cmd != "" {
      assert [Command(cmd)][1..] == [];
    }
  }

  // Calls that answer command lines of client id: a keepalive is answered in place, by a flushed line, and
  // anything else goes to the command dispatcher.
  predicate AnswersAt(fx: seq<Effect>, i: nat, id: nat)
    requires i < |fx|
  {
    match fx[i]
    case Command(cmd) => cmd != "" && !("PING " <= cmd)
    case Println(to, line) => to == id && "PONG " <= line && i + 1 < |fx| && fx[i + 1] == Flush(id)
    case Flush(to) => to == id && i > 0 && fx[i - 1].Println?
    case _ => false
  }

  predicate Answers(fx: seq<Effect>, id: nat) {
    forall i :: 0 <= i < |fx| ==> AnswersAt(fx, i, id)
  }

  lemma AnswerAnswers(id: nat, cmd: string)
    ensures Answers(Answer(id, cmd), id)
  {
    if cmd != "" && "PING " <= cmd {
      var pong := "PONG " + cmd[5..];
      assert pong[..5] == "PONG ";
    }
  }

  lemma AnswersAppend(a: seq<Effect>, b: seq<Effect>, id: nat)
    requires Answers(a, id) && Answers(b, id)
    ensures Answers(a + b, id)
  {
    var fx := a + b;
    forall i | 0 <= i < |fx|
      ensures AnswersAt(fx, i, id)
    {
      if i < |a| {
        assert AnswersAt(a, i, id);
      } else {
        assert AnswersAt(b, i - |a|, id);
      }
    }
  }

  /** Each complete non-blank line is answered exactly once, in order: dispatched commands, and PONGs read
      back as the PINGs they answer, spell the trimmed non-blank lines of the input. A PING is always answered,
      to its own client and flushed, and never dispatched. */
  lemma {:induction false} EveryLineOnce(id: nat, lines: seq<string>)
    ensures AsCommands(ReactAll(id, lines)) == Commands(lines)
    ensures Answers(ReactAll(id, lines), id)
  {
    if lines != [] {
      EveryLineOnce(id, lines[1..]);
      AnswerAsCommand(id, Trim(lines[0], WHITESPACE));
      AnswerAnswers(id, Trim(lines[0], WHITESPACE));
      AsCommandsAppend(React(id, lines[0]), ReactAll(id, lines[1..]));
      AnswersAppend(React(id, lines[0]), ReactAll(id, lines[1..]), id);
    }
  }
}
