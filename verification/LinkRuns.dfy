/** The Wi-Fi handler inside the machine, over whole runs. */
module LinkRuns {
  import opened CTypes
  import opened Device
  import opened Runs
  import opened WifiLink

  function WifiEvents(evs: seq<Event>): seq<WifiEvent> {
    if evs == [] then []
    else (if evs[0].Wifi? then [evs[0].wifi] else []) + WifiEvents(evs[1..])
  }

  function LibraryCalls(obs: seq<Obs>): seq<Call> {
    if obs == [] then []
    else (if obs[0].Called? then obs[0].calls else []) + LibraryCalls(obs[1..])
  }

  lemma {:induction false} LibraryCallsAppend(a: seq<Obs>, b: seq<Obs>)
    ensures LibraryCalls(a + b) == LibraryCalls(a) + LibraryCalls(b)
  {
    if a == [] {
      assert a + b == b;
    } else {
      assert (a + b)[1..] == a[1..] + b;
      LibraryCallsAppend(a[1..], b);
    }
  }

  lemma {:induction false} NoLibraryCalls(obs: seq<Obs>)
    requires forall o :: o in obs ==> !o.Called?
    ensures LibraryCalls(obs) == []
  {
    if obs != [] {
      assert obs[0] in obs;
      NoLibraryCalls(obs[1..]);
    }
  }

  function Extended(history: seq<WifiEvent>, e: Event): seq<WifiEvent> {
    if e.Wifi? then history + [e.wifi] else history
  }

  lemma {:induction false} ReplaySnoc(history: seq<WifiEvent>, ev: WifiEvent)
    ensures Replay(STATUS, history + [ev]) == After(STATUS, Replay(STATUS, history), ev)
    ensures Calls(STATUS, history + [ev]) == Calls(STATUS, history) + CallsFor(STATUS, Replay(STATUS, history), ev)
  {
    assert (history + [ev])[..|history|] == history;
  }

  lemma {:induction false} StepLink(d: Device, e: Event, history: seq<WifiEvent>)
    requires d.up && Step(d, e).0.up && d.link == Replay(STATUS, history)
    ensures Step(d, e).0.link == Replay(STATUS, Extended(history, e))
    ensures Calls(STATUS, history) + LibraryCalls(Step(d, e).1) == Calls(STATUS, Extended(history, e))
  {
    if e.Wifi? {
      ReplaySnoc(history, e.wifi);
      assert Step(d, e).1[1..] == [];
    } else {
      NoLibraryCalls(Step(d, e).1);
    }
  }

  lemma WifiEventsCons(e: Event, rest: seq<Event>, history: seq<WifiEvent>)
    ensures Extended(history, e) + WifiEvents(rest) == history + WifiEvents([e] + rest)
  {
  }

  lemma {:induction false} CallsCons(d: Device, evs: seq<Event>, before: seq<Call>)
    requires evs != []
    ensures before + LibraryCalls(Trace(d, evs)) ==
            before + LibraryCalls(Step(d, evs[0]).1) + LibraryCalls(Trace(Step(d, evs[0]).0, evs[1..]))
  {
    LibraryCallsAppend(Step(d, evs[0]).1, Trace(Step(d, evs[0]).0, evs[1..]));
  }

  /** As long as the device stays up, whatever else happens in between, the link is the one
      the Wi-Fi events alone determine, and so are the library calls. */
  lemma {:induction false} LinkInContext(d: Device, evs: seq<Event>, history: seq<WifiEvent>)
    requires StaysUp(d, evs) && d.link == Replay(STATUS, history)
    ensures Final(d, evs).link == Replay(STATUS, history + WifiEvents(evs))
    ensures Calls(STATUS, history) + LibraryCalls(Trace(d, evs)) == Calls(STATUS, history + WifiEvents(evs))
    decreases |evs|
  {
    if evs == [] {
      assert history + WifiEvents(evs) == history;
    } else {
      StepLink(d, evs[0], history);
      assert evs == [evs[0]] + evs[1..];
      WifiEventsCons(evs[0], evs[1..], history);
      LinkInContext(Step(d, evs[0]).0, evs[1..], Extended(history, evs[0]));
      CallsCons(d, evs, Calls(STATUS, history));
    }
  }

  /** For every boot of every run, between any restarts and in every interleaving with
      commands and interrupts: one server at most, the first that could be started since that
      boot, with both pages registered once; every joining station tries until then. */
  lemma {:induction false} OneServerPerBoot(d: Device, evs: seq<Event>, i: nat, j: nat)
    requires Sound(d) && OneBoot(d, evs, i, j)
    ensures var boot := evs[i + 1..j]; var first := FirstServer(WifiEvents(boot));
      && Before(d, evs, j).link.server == first
      && Serving(LibraryCalls(Trace(Before(d, evs, i + 1), boot))) == ServingCalls(first)
      && CountStarts(LibraryCalls(Trace(Before(d, evs, i + 1), boot))) == JoinsUntilServer(WifiEvents(boot))
  {
    var start, boot := Before(d, evs, i + 1), evs[i + 1..j];
    BootIsFresh(d, evs, i, j);
    LinkInContext(start, boot, []);
    assert [] + WifiEvents(boot) == WifiEvents(boot);
    assert Calls(STATUS, []) + LibraryCalls(Trace(start, boot)) == LibraryCalls(Trace(start, boot));
    ServerIsFirst(STATUS, WifiEvents(boot));
    ServerStartedOnce(STATUS, WifiEvents(boot));
  }

  /** For every boot of every run: the station connects once for every start of the station
      and every disconnection of that boot, and all library calls stand in their places. */
  lemma {:induction false} CallsPerBoot(d: Device, evs: seq<Event>, i: nat, j: nat, kind: Kind)
    requires Sound(d) && OneBoot(d, evs, i, j)
    ensures var calls := LibraryCalls(Trace(Before(d, evs, i + 1), evs[i + 1..j]));
      && CountCalls(calls, kind) == CountAsked(STATUS, WifiEvents(evs[i + 1..j]), kind)
      && Orderly(calls)
  {
    var start, boot := Before(d, evs, i + 1), evs[i + 1..j];
    BootIsFresh(d, evs, i, j);
    LinkInContext(start, boot, []);
    assert [] + WifiEvents(boot) == WifiEvents(boot);
    assert Calls(STATUS, []) + LibraryCalls(Trace(start, boot)) == LibraryCalls(Trace(start, boot));
    CallsCounted(STATUS, WifiEvents(boot), kind);
    CallsInPlace(STATUS, WifiEvents(boot));
  }

  predicate TouchesMqtt(o: Obs) {
    o.Called? && exists c :: c in o.calls && (c.MqttStart? || c.MqttStop?)
  }

  lemma {:induction false} StepWithoutClient(d: Device, e: Event)
    requires d.link.client == None
    ensures Step(d, e).0.link.client == None
    ensures forall o :: o in Step(d, e).1 ==> !TouchesMqtt(o)
  {
  }

  /** `status` keeps its initial value 0, so no run ever starts an MQTT client. */
  lemma {:induction false} NoClientAsShipped(d: Device, evs: seq<Event>)
    requires d.link.client == None
    ensures Final(d, evs).link.client == None
    ensures forall o :: o in Trace(d, evs) ==> !TouchesMqtt(o)
    decreases |evs|
  {
    if evs != [] {
      StepWithoutClient(d, evs[0]);
      NoClientAsShipped(Step(d, evs[0]).0, evs[1..]);
    }
  }
}
