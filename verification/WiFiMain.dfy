/** The main loop: the stateful manager driven by any interleaving of ticks and events goes through exactly the
    contexts of a run, so everything proved about runs holds of it. */
module WiFiMain {
  import opened WiFiModel
  import opened WiFiManagerImpl
  import opened WiFiRuns

  // A machine's states before each of the first k inputs and after the last, with what each step put out.
  ghost predicate Traced<C(!new), I(!new), O(!new)>(next: (C, I) -> C, out: (C, I) -> O, cs: seq<C>, es: seq<I>,
                                                  outs: seq<O>)
  {
    && |outs| <= |es| && |cs| == |outs| + 1
    && forall i :: 0 <= i < |outs| ==> cs[i + 1] == next(cs[i], es[i]) && outs[i] == out(cs[i], es[i])
  }

  lemma TraceGrows<C(!new), I(!new), O(!new)>(next: (C, I) -> C, out: (C, I) -> O, cs: seq<C>, es: seq<I>,
                                              outs: seq<O>, c: C, o: O)
    requires Traced(next, out, cs, es, outs) && |outs| < |es|
    requires c == next(cs[|outs|], es[|outs|]) && o == out(cs[|outs|], es[|outs|])
    ensures Traced(next, out, cs + [c], es, outs + [o])
  {
  }

  function Calls(b: Baked, c: Context, e: Event): seq<Effect> {
    Step(b, c, e).fx
  }

  /** The contexts the manager goes through form a run from boot, and on each step it makes exactly the radio
      calls of the model's step. */
  method MainLoop(baked: Baked, es: seq<Event>) returns (cs: seq<Context>, calls: seq<seq<Effect>>)
    requires InOrder(es)
    ensures IsRun(baked, cs, es) && cs[0] == INITIAL
    ensures |calls| == |es| && forall k :: 0 <= k < |es| ==> calls[k] == Calls(baked, cs[k], es[k])
  {
    ghost var next, out := (c, e) => Next(baked, c, e), (c, e) => Calls(baked, c, e);
    var wifi := new WiFiManager(baked);
    var c := wifi.View();
    cs, calls := [c], [];
    while |calls| < |es|
      invariant Traced(next, out, cs, es, calls)
      invariant wifi.baked == baked && wifi.View() == c == cs[|calls|] && cs[0] == INITIAL
    {
      var e, made := es[|calls|], |wifi.fx|;
      wifi.Handle(e);
      TraceGrows(next, out, cs, es, calls, wifi.View(), wifi.fx[made..]);
      c := wifi.View();
      cs, calls := cs + [c], calls + [wifi.fx[made..]];
    }
    forall k | 0 <= k < |es|
      ensures cs[k + 1] == Next(baked, cs[k], es[k]) && calls[k] == Calls(baked, cs[k], es[k])
    {
      assert cs[k + 1] == next(cs[k], es[k]) && calls[k] == out(cs[k], es[k]);
    }
  }
}
