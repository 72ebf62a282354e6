/** wifi_event_handler: the life cycle of the web server and of the MQTT client, driven by
    Wi-Fi events.  What the library answers is part of the event. */
module WifiLink {
  import opened CTypes

  type Handle = nat

  datatype WifiEvent =
    | ApStaConnected(start: Option<Handle>)  // what httpd_start yields if it is called
    | ApStaDisconnected
    | StaStart
    | StaDisconnected
    | StaConnected(init: Option<Handle>)     // what esp_mqtt_client_init yields if it is called
    | OtherWifiEvent
    | NotWifi

  datatype Call =
    | HttpStart(result: Option<Handle>)
    | RegisterUri(server: Handle, uri: string)
    | WifiConnect
    | MqttStart(started: Option<Handle>)
    | MqttRegisterEvent(registered: Option<Handle>)
    | MqttStop(stopped: Handle)
    | MqttDisconnect(disconnected: Handle)
    | MqttUnregisterEvent(unregistered: Handle)

  datatype Link = Link(server: Option<Handle>, client: Option<Handle>)

  const NO_LINK := Link(None, None)

  function After(status: Byte, l: Link, ev: WifiEvent): Link {
    match ev
    case ApStaConnected(start) => if l.server == None then l.(server := start) else l
    case StaConnected(init) => if status == 1 then l.(client := init) else l
    case StaDisconnected => if status == 1 then l.(client := None) else l
    case _ => l
  }

  function CallsFor(status: Byte, l: Link, ev: WifiEvent): seq<Call> {
    match ev
    case ApStaConnected(start) =>
      if l.server.Some? then []
      else if start == None then [HttpStart(start)]
      else [HttpStart(start), RegisterUri(start.value, "/"), RegisterUri(start.value, "/ws")]
    case StaStart => [WifiConnect]
    case StaDisconnected =>
      if l.client == None || status != 1 then [WifiConnect]
      else [WifiConnect, MqttStop(l.client.value), MqttDisconnect(l.client.value), MqttUnregisterEvent(l.client.value)]
    case StaConnected(init) => if status == 1 then [MqttStart(init), MqttRegisterEvent(init)] else []
    case _ => []
  }

  /** Everything since boot. */
  function Replay(status: Byte, evs: seq<WifiEvent>): Link {
    if evs == [] then NO_LINK else After(status, Replay(status, evs[..|evs| - 1]), evs[|evs| - 1])
  }

  function Calls(status: Byte, evs: seq<WifiEvent>): seq<Call> {
    if evs == [] then []
    else
      var front := evs[..|evs| - 1];
      Calls(status, front) + CallsFor(status, Replay(status, front), evs[|evs| - 1])
  }

  // ---------------------------------------------------------------- web server

  /** The first successful start among the joining stations. */
  function FirstServer(evs: seq<WifiEvent>): Option<Handle> {
    if evs == [] then None
    else if evs[0].ApStaConnected? && evs[0].start.Some? then evs[0].start
    else FirstServer(evs[1..])
  }

  /** The joining stations up to and including the one whose start succeeds. */
  function JoinsUntilServer(evs: seq<WifiEvent>): nat {
    if evs == [] then 0
    else if !evs[0].ApStaConnected? then JoinsUntilServer(evs[1..])
    else if evs[0].start.Some? then 1
    else 1 + JoinsUntilServer(evs[1..])
  }

  predicate Serves(c: Call) {
    (c.HttpStart? && c.result.Some?) || c.RegisterUri?
  }

  /** The successful starts and the registrations, in order. */
  function Serving(calls: seq<Call>): seq<Call> {
    if calls == [] then []
    else
      var last := calls[|calls| - 1];
      Serving(calls[..|calls| - 1]) + if Serves(last) then [last] else []
  }

  function CountStarts(calls: seq<Call>): nat {
    if calls == [] then 0
    else CountStarts(calls[..|calls| - 1]) + if calls[|calls| - 1].HttpStart? then 1 else 0
  }

  lemma {:induction false} FirstServerSnoc(evs: seq<WifiEvent>, ev: WifiEvent)
    ensures FirstServer(evs + [ev]) == if FirstServer(evs).Some? then FirstServer(evs) else FirstServer([ev])
    ensures JoinsUntilServer(evs + [ev]) ==
            JoinsUntilServer(evs) + if FirstServer(evs).Some? then 0 else JoinsUntilServer([ev])
  {
    if evs == [] {
      assert [] + [ev] == [ev];
    } else {
      FirstServerSnoc(evs[1..], ev);
      assert (evs + [ev])[1..] == evs[1..] + [ev];
    }
  }

  lemma {:induction false} ServingAppend(a: seq<Call>, b: seq<Call>)
    ensures Serving(a + b) == Serving(a) + Serving(b)
    ensures CountStarts(a + b) == CountStarts(a) + CountStarts(b)
  {
    if b == [] {
      assert a + b == a;
    } else {
      ServingAppend(a, b[..|b| - 1]);
      assert (a + b)[..|a + b| - 1] == a + b[..|b| - 1];
    }
  }

  lemma {:induction false} NothingServed(calls: seq<Call>)
    requires forall c :: c in calls ==> !c.HttpStart? && !c.RegisterUri?
    ensures Serving(calls) == [] && CountStarts(calls) == 0
  {
    if calls != [] {
      assert calls[|calls| - 1] in calls;
      NothingServed(calls[..|calls| - 1]);
    }
  }

  lemma {:induction false} StartServed(h: Handle)
    ensures var calls := [HttpStart(Some(h)), RegisterUri(h, "/"), RegisterUri(h, "/ws")];
      Serving(calls) == calls && CountStarts(calls) == 1
  {
    var a, b, c := HttpStart(Some(h)), RegisterUri(h, "/"), RegisterUri(h, "/ws");
    assert [a, b, c][..2] == [a, b] && [a, b][..1] == [a] && [a][..0] == [];
    assert Serving([a]) == [a] && CountStarts([a]) == 1;
    assert Serving([a, b]) == [a, b] && CountStarts([a, b]) == 1;
  }

  lemma {:induction false} CountStartsOf(status: Byte, l: Link, ev: WifiEvent)
    ensures CountStarts(CallsFor(status, l, ev)) == if ev.ApStaConnected? && l.server == None then 1 else 0
    ensures Serving(CallsFor(status, l, ev)) ==
            if ev.ApStaConnected? && l.server == None && ev.start.Some?
            then [HttpStart(ev.start), RegisterUri(ev.start.value, "/"), RegisterUri(ev.start.value, "/ws")] else []
  {
    if ev.ApStaConnected? && l.server == None {
      if ev.start.Some? {
        StartServed(ev.start.value);
      }
    } else {
      NothingServed(CallsFor(status, l, ev));
    }
  }

  lemma {:induction false} ServerFound(status: Byte, evs: seq<WifiEvent>)
    ensures Replay(status, evs).server == FirstServer(evs)
    decreases |evs|
  {
    if evs != [] {
      var front, ev := evs[..|evs| - 1], evs[|evs| - 1];
      ServerFound(status, front);
      assert evs == front + [ev];
      FirstServerSnoc(front, ev);
    }
  }

  lemma {:induction false} StartsCounted(status: Byte, evs: seq<WifiEvent>)
    ensures CountStarts(Calls(status, evs)) == JoinsUntilServer(evs)
    decreases |evs|
  {
    if evs != [] {
      var front, ev := evs[..|evs| - 1], evs[|evs| - 1];
      StartsCounted(status, front);
      ServerFound(status, front);
      assert evs == front + [ev];
      FirstServerSnoc(front, ev);
      ServingAppend(Calls(status, front), CallsFor(status, Replay(status, front), ev));
      CountStartsOf(status, Replay(status, front), ev);
    }
  }

  /** The server is the first one that could be started, whatever happens later: every
      joining station retries until then and none does afterwards. */
  lemma {:induction false} ServerIsFirst(status: Byte, evs: seq<WifiEvent>)
    ensures Replay(status, evs).server == FirstServer(evs)
    ensures CountStarts(Calls(status, evs)) == JoinsUntilServer(evs)
  {
    ServerFound(status, evs);
    StartsCounted(status, evs);
  }

  /** The start of `h` and the registration of both pages with it. */
  function ServingCalls(first: Option<Handle>): seq<Call> {
    match first
    case None => []
    case Some(h) => [HttpStart(Some(h)), RegisterUri(h, "/"), RegisterUri(h, "/ws")]
  }

  lemma {:induction false} ServingStep(status: Byte, front: seq<WifiEvent>, ev: WifiEvent)
    ensures ServingCalls(FirstServer(front)) + Serving(CallsFor(status, Replay(status, front), ev)) ==
            ServingCalls(FirstServer(front + [ev]))
  {
    ServerIsFirst(status, front);
    FirstServerSnoc(front, ev);
    CountStartsOf(status, Replay(status, front), ev);
    assert FirstServer([ev]) == if ev.ApStaConnected? then ev.start else None;
  }

  /** At most one server is ever started in a boot, and when it is, each page is registered
      with it exactly once, right then. */
  lemma {:induction false} ServerStartedOnce(status: Byte, evs: seq<WifiEvent>)
    ensures Serving(Calls(status, evs)) == ServingCalls(FirstServer(evs))
    decreases |evs|
  {
    if evs != [] {
      var front, ev := evs[..|evs| - 1], evs[|evs| - 1];
      ServerStartedOnce(status, front);
      ServingStep(status, front, ev);
      assert evs == front + [ev];
      ServingAppend(Calls(status, front), CallsFor(status, Replay(status, front), ev));
    }
  }

  /** Once there is a server it stays the same one. */
  lemma {:induction false} ServerStable(status: Byte, evs: seq<WifiEvent>, more: seq<WifiEvent>)
    requires Replay(status, evs).server.Some?
    ensures Replay(status, evs + more).server == Replay(status, evs).server
  {
    if more == [] {
      assert evs + more == evs;
    } else {
      var front := more[..|more| - 1];
      ServerStable(status, evs, front);
      assert (evs + more)[..|evs + more| - 1] == evs + front;
    }
  }

  // ---------------------------------------------------------------- MQTT client

  /** The last station event that says whether there is a link. */
  function LastLink(evs: seq<WifiEvent>): Option<WifiEvent> {
    if evs == [] then None
    else
      var last := evs[|evs| - 1];
      if last.StaConnected? || last.StaDisconnected? then Some(last) else LastLink(evs[..|evs| - 1])
  }

  predicate LinkedWithClient(evs: seq<WifiEvent>) {
    var last := LastLink(evs);
    last.Some? && last.value.StaConnected? && last.value.init.Some?
  }

  /** How often a link came up while the previous one had not gone down. */
  function Repeats(status: Byte, evs: seq<WifiEvent>): nat {
    if evs == [] then 0
    else
      var front := evs[..|evs| - 1];
      Repeats(status, front) +
      if status == 1 && evs[|evs| - 1].StaConnected? && LinkedWithClient(front) then 1 else 0
  }

  /** A client started counts 1, a client stopped -1. */
  function Weight(c: Call): int {
    if c.MqttStart? && c.started.Some? then 1 else if c.MqttStop? then -1 else 0
  }

  function Running(calls: seq<Call>): int {
    if calls == [] then 0 else Running(calls[..|calls| - 1]) + Weight(calls[|calls| - 1])
  }

  lemma {:induction false} RunningAppend(a: seq<Call>, b: seq<Call>)
    ensures Running(a + b) == Running(a) + Running(b)
  {
    if b == [] {
      assert a + b == a;
    } else {
      RunningAppend(a, b[..|b| - 1]);
      assert (a + b)[..|a + b| - 1] == a + b[..|b| - 1];
    }
  }

  lemma {:induction false} NothingRun(calls: seq<Call>)
    requires forall c :: c in calls ==> Weight(c) == 0
    ensures Running(calls) == 0
  {
    if calls != [] {
      assert calls[|calls| - 1] in calls;
      NothingRun(calls[..|calls| - 1]);
    }
  }

  lemma {:induction false} RunningSnoc(calls: seq<Call>, c: Call)
    ensures Running(calls + [c]) == Running(calls) + Weight(c)
  {
    assert (calls + [c])[..|calls|] == calls;
  }

  lemma {:induction false} StartRuns(init: Option<Handle>)
    ensures Running([MqttStart(init), MqttRegisterEvent(init)]) == if init.Some? then 1 else 0
  {
    var a, b := MqttStart(init), MqttRegisterEvent(init);
    RunningSnoc([], a);
    RunningSnoc([a], b);
    assert [] + [a] == [a] && [a] + [b] == [a, b];
  }

  lemma {:induction false} StopRuns(h: Handle)
    ensures Running([WifiConnect, MqttStop(h), MqttDisconnect(h), MqttUnregisterEvent(h)]) == -1
  {
    var a, b, c, d := WifiConnect, MqttStop(h), MqttDisconnect(h), MqttUnregisterEvent(h);
    RunningSnoc([], a);
    RunningSnoc([a], b);
    RunningSnoc([a, b], c);
    RunningSnoc([a, b, c], d);
    assert [] + [a] == [a] && [a] + [b] == [a, b] && [a, b] + [c] == [a, b, c] && [a, b, c] + [d] == [a, b, c, d];
  }

  lemma {:induction false} RunningOf(status: Byte, l: Link, ev: WifiEvent)
    ensures Running(CallsFor(status, l, ev)) ==
            (if ev.StaConnected? && status == 1 && ev.init.Some? then 1 else 0)
            - (if ev.StaDisconnected? && status == 1 && l.client.Some? then 1 else 0)
  {
    if status == 1 && ev.StaConnected? {
      StartRuns(ev.init);
    } else if status == 1 && ev.StaDisconnected? && l.client.Some? {
      StopRuns(l.client.value);
    } else {
      NothingRun(CallsFor(status, l, ev));
    }
  }

  /** `client` is non-NULL exactly when the device is in operation mode and the last link
      event was a connection; and then it is the client made on that connection. */
  lemma {:induction false} ClientFollowsLink(status: Byte, evs: seq<WifiEvent>)
    ensures Replay(status, evs).client ==
            if status == 1 && LinkedWithClient(evs) then LastLink(evs).value.init else None
  {
    if evs != [] {
      ClientFollowsLink(status, evs[..|evs| - 1]);
    }
  }

  /** Clients started and not stopped: the one `client` points to, and one more for every
      repeated connection event, which loses the handle of a running client. */
  lemma {:induction false} ClientBalance(status: Byte, evs: seq<WifiEvent>)
    ensures Running(Calls(status, evs)) ==
            Repeats(status, evs) + if Replay(status, evs).client.Some? then 1 else 0
  {
    if evs != [] {
      var front, ev := evs[..|evs| - 1], evs[|evs| - 1];
      ClientBalance(status, front);
      ClientFollowsLink(status, front);
      RunningAppend(Calls(status, front), CallsFor(status, Replay(status, front), ev));
      RunningOf(status, Replay(status, front), ev);
    }
  }

  ghost predicate DownBetween(evs: seq<WifiEvent>, i: int, j: int)
    requires 0 <= i && j <= |evs|
  {
    exists k :: i < k < j && evs[k].StaDisconnected?
  }

  /** Every two connection events have a disconnection between them. */
  ghost predicate NeverRepeated(evs: seq<WifiEvent>) {
    forall i, j :: 0 <= i < j < |evs| && evs[i].StaConnected? && evs[j].StaConnected? ==> DownBetween(evs, i, j)
  }

  predicate InitNeverFails(evs: seq<WifiEvent>) {
    forall i :: 0 <= i < |evs| && evs[i].StaConnected? ==> evs[i].init.Some?
  }

  lemma DownBetweenPrefix(evs: seq<WifiEvent>, n: nat)
    requires n < |evs|
    ensures forall i, j :: 0 <= i && j <= n ==> (DownBetween(evs, i, j) <==> DownBetween(evs[..n], i, j))
    ensures !evs[n].StaDisconnected? ==>
            forall i :: 0 <= i < n ==> (DownBetween(evs, i, n + 1) <==> DownBetween(evs[..n], i, n))
  {
  }

  lemma {:induction false} LinkedMeansUp(evs: seq<WifiEvent>)
    requires InitNeverFails(evs)
    ensures LinkedWithClient(evs) <==>
            exists i :: 0 <= i < |evs| && evs[i].StaConnected? && !DownBetween(evs, i, |evs|)
  {
    if evs != [] {
      var front, last := evs[..|evs| - 1], evs[|evs| - 1];
      LinkedMeansUp(front);
      if last.StaConnected? {
        assert !DownBetween(evs, |evs| - 1, |evs|);
      } else if last.StaDisconnected? {
        assert forall i :: 0 <= i < |front| ==> DownBetween(evs, i, |evs|) by {
          assert evs[|evs| - 1].StaDisconnected?;
        }
      } else {
        assert forall i :: 0 <= i < |front| ==> (DownBetween(evs, i, |evs|) <==> DownBetween(front, i, |front|)) by {
          DownBetweenPrefix(evs, |front|);
        }
      }
    }
  }

  lemma {:induction false} NoRepeats(evs: seq<WifiEvent>)
    requires InitNeverFails(evs)
    ensures Repeats(1, evs) == 0 <==> NeverRepeated(evs)
  {
    if evs != [] {
      var n := |evs| - 1;
      var front, last := evs[..n], evs[n];
      NoRepeats(front);
      LinkedMeansUp(front);
      DownBetweenPrefix(evs, n);
      assert forall i :: 0 <= i < n ==> front[i] == evs[i];
      if last.StaConnected? && LinkedWithClient(front) {
        var i :| 0 <= i < n && front[i].StaConnected? && !DownBetween(front, i, n);
        assert evs[i].StaConnected? && !DownBetween(evs, i, n);
      }
    }
  }

  lemma {:induction false} NoRepeatsOtherwise(status: Byte, evs: seq<WifiEvent>)
    requires status != 1
    ensures Repeats(status, evs) == 0
  {
    if evs != [] {
      NoRepeatsOtherwise(status, evs[..|evs| - 1]);
    }
  }

  /** With a client library that always delivers a client: the number of running clients
      follows the `client` variable, and so is 0 or 1, exactly when the device is not in
      operation mode or a connection is never reported twice without a disconnection between. */
  lemma {:induction false} OneClientExactly(status: Byte, evs: seq<WifiEvent>)
    requires InitNeverFails(evs)
    ensures Running(Calls(status, evs)) == (if Replay(status, evs).client.Some? then 1 else 0)
      <==> status != 1 || NeverRepeated(evs)
    ensures status != 1 || NeverRepeated(evs) ==> Running(Calls(status, evs)) in {0, 1}
  {
    ClientBalance(status, evs);
    if status == 1 {
      NoRepeats(evs);
    } else {
      NoRepeatsOtherwise(status, evs);
    }
  }

  // ---------------------------------------------------------------- every call

  datatype Kind = Connecting | Starting | Stopping

  predicate Is(c: Call, kind: Kind) {
    match kind case Connecting => c.WifiConnect? case Starting => c.MqttStart? case Stopping => c.MqttStop?
  }

  function CountCalls(calls: seq<Call>, kind: Kind): nat {
    if calls == [] then 0 else (if Is(calls[0], kind) then 1 else 0) + CountCalls(calls[1..], kind)
  }

  /** Whether the last event, behind those in `front`, asks for a call of that kind. */
  predicate AsksFor(status: Byte, front: seq<WifiEvent>, ev: WifiEvent, kind: Kind) {
    match kind
    case Connecting => ev.StaStart? || ev.StaDisconnected?
    case Starting => status == 1 && ev.StaConnected?
    case Stopping => status == 1 && ev.StaDisconnected? && LinkedWithClient(front)
  }

  function CountAsked(status: Byte, evs: seq<WifiEvent>, kind: Kind): nat {
    if evs == [] then 0
    else
      var front := evs[..|evs| - 1];
      CountAsked(status, front, kind) + if AsksFor(status, front, evs[|evs| - 1], kind) then 1 else 0
  }

  lemma {:induction false} CountCallsAppend(a: seq<Call>, b: seq<Call>, kind: Kind)
    ensures CountCalls(a + b, kind) == CountCalls(a, kind) + CountCalls(b, kind)
  {
    if a == [] {
      assert a + b == b;
    } else {
      assert (a + b)[1..] == a[1..] + b;
      CountCallsAppend(a[1..], b, kind);
    }
  }

  lemma {:induction false} CountCallsCons(c: Call, rest: seq<Call>, kind: Kind)
    ensures CountCalls([c] + rest, kind) == (if Is(c, kind) then 1 else 0) + CountCalls(rest, kind)
  {
    assert ([c] + rest)[1..] == rest;
  }

  lemma {:induction false} CountCallsOf(status: Byte, front: seq<WifiEvent>, ev: WifiEvent, kind: Kind)
    ensures CountCalls(CallsFor(status, Replay(status, front), ev), kind) ==
            if AsksFor(status, front, ev, kind) then 1 else 0
  {
    ClientFollowsLink(status, front);
    var calls := CallsFor(status, Replay(status, front), ev);
    if |calls| > 1 {
      CountCallsCons(calls[0], calls[1..], kind);
      CountCallsCons(calls[1], calls[2..], kind);
      assert [calls[0]] + calls[1..] == calls && [calls[1]] + calls[2..] == calls[1..];
    }
    if |calls| > 2 {
      CountCallsCons(calls[2], calls[3..], kind);
      assert [calls[2]] + calls[3..] == calls[2..];
    }
  }

  /** Over every event sequence the device connects once for every start of the station and
      every disconnection; in operation mode it starts a client for every connection and stops
      one for every disconnection behind a connection with a client. */
  lemma {:induction false} CallsCounted(status: Byte, evs: seq<WifiEvent>, kind: Kind)
    ensures CountCalls(Calls(status, evs), kind) == CountAsked(status, evs, kind)
    decreases |evs|
  {
    if evs != [] {
      var front, ev := evs[..|evs| - 1], evs[|evs| - 1];
      CallsCounted(status, front, kind);
      CountCallsOf(status, front, ev, kind);
      CountCallsAppend(Calls(status, front), CallsFor(status, Replay(status, front), ev), kind);
    }
  }

  predicate Follow(calls: seq<Call>, i: nat, next: seq<Call>) {
    i + |next| < |calls| && calls[i + 1..i + 1 + |next|] == next
  }

  predicate Behind(calls: seq<Call>, i: nat, before: Call) {
    0 < i <= |calls| && calls[i - 1] == before
  }

  /** What stands right before and right behind each call. */
  predicate InPlace(calls: seq<Call>, i: nat)
    requires i < |calls|
  {
    match calls[i]
    case HttpStart(Some(h)) => Follow(calls, i, [RegisterUri(h, "/"), RegisterUri(h, "/ws")])
    case HttpStart(None) => true
    case RegisterUri(h, uri) =>
      || (uri == "/" && Behind(calls, i, HttpStart(Some(h))))
      || (uri == "/ws" && Behind(calls, i, RegisterUri(h, "/")))
    case WifiConnect => true
    case MqttStart(client) => Follow(calls, i, [MqttRegisterEvent(client)])
    case MqttRegisterEvent(client) => Behind(calls, i, MqttStart(client))
    case MqttStop(h) => Behind(calls, i, WifiConnect) && Follow(calls, i, [MqttDisconnect(h), MqttUnregisterEvent(h)])
    case MqttDisconnect(h) => Behind(calls, i, MqttStop(h))
    case MqttUnregisterEvent(h) => Behind(calls, i, MqttDisconnect(h))
  }

  ghost predicate Orderly(calls: seq<Call>) {
    forall i :: 0 <= i < |calls| ==> InPlace(calls, i)
  }

  lemma {:induction false} OrderlyAppend(a: seq<Call>, b: seq<Call>)
    requires Orderly(a) && Orderly(b)
    ensures Orderly(a + b)
  {
    forall i | 0 <= i < |a + b|
      ensures InPlace(a + b, i)
    {
      if i < |a| {
        assert InPlace(a, i);
      } else {
        assert InPlace(b, i - |a|);
      }
    }
  }

  lemma {:induction false} OneInPlace(status: Byte, l: Link, ev: WifiEvent)
    ensures Orderly(CallsFor(status, l, ev))
  {
    var calls := CallsFor(status, l, ev);
    forall i | 0 <= i < |calls|
      ensures InPlace(calls, i)
    {
      assert |calls| == 3 ==> calls[1..3] == [calls[1], calls[2]];
      assert |calls| == 4 ==> calls[2..4] == [calls[2], calls[3]];
    }
  }

  /** In every event sequence: a server start is followed by both registrations, a client
      start by its registration, a stop stands behind the reconnection and is followed by
      disconnection and deregistration of the same client; and none of those calls stands
      anywhere else. */
  lemma {:induction false} CallsInPlace(status: Byte, evs: seq<WifiEvent>)
    ensures Orderly(Calls(status, evs))
    decreases |evs|
  {
    if evs != [] {
      var front, ev := evs[..|evs| - 1], evs[|evs| - 1];
      CallsInPlace(status, front);
      OneInPlace(status, Replay(status, front), ev);
      OrderlyAppend(Calls(status, front), CallsFor(status, Replay(status, front), ev));
    }
  }

  /** The last client start or stop. */
  function LastClientCall(calls: seq<Call>): Option<Call> {
    if calls == [] then None
    else
      var last := calls[|calls| - 1];
      if last.MqttStart? || last.MqttStop? then Some(last) else LastClientCall(calls[..|calls| - 1])
  }

  ghost predicate StopsLatest(calls: seq<Call>) {
    forall i :: 0 <= i < |calls| && calls[i].MqttStop? ==>
      LastClientCall(calls[..i]) == Some(MqttStart(Some(calls[i].stopped)))
  }

  lemma {:induction false} LastClientCallAppend(a: seq<Call>, b: seq<Call>)
    ensures LastClientCall(a + b) == if LastClientCall(b).Some? then LastClientCall(b) else LastClientCall(a)
  {
    if b == [] {
      assert a + b == a;
    } else {
      LastClientCallAppend(a, b[..|b| - 1]);
      assert (a + b)[..|a + b| - 1] == a + b[..|b| - 1];
    }
  }

  lemma {:induction false} NoClientCall(calls: seq<Call>)
    requires forall c :: c in calls ==> !c.MqttStart? && !c.MqttStop?
    ensures LastClientCall(calls) == None
  {
    if calls != [] {
      assert calls[|calls| - 1] in calls;
      NoClientCall(calls[..|calls| - 1]);
    }
  }

  lemma {:induction false} StopsLatestAppend(a: seq<Call>, b: seq<Call>)
    requires StopsLatest(a)
    requires forall k :: 0 <= k < |b| && b[k].MqttStop? ==>
      LastClientCall(a + b[..k]) == Some(MqttStart(Some(b[k].stopped)))
    ensures StopsLatest(a + b)
  {
    assert forall i :: 0 <= i <= |a| ==> (a + b)[..i] == a[..i];
    assert forall i :: |a| <= i <= |a + b| ==> (a + b)[..i] == a + b[..i - |a|];
  }

  lemma {:induction false} StopIsLatest(calls: seq<Call>, h: Handle)
    requires StopsLatest(calls) && LastClientCall(calls) == Some(MqttStart(Some(h)))
    ensures StopsLatest(calls + [WifiConnect, MqttStop(h), MqttDisconnect(h), MqttUnregisterEvent(h)])
  {
    var added := [WifiConnect, MqttStop(h), MqttDisconnect(h), MqttUnregisterEvent(h)];
    assert added[..1] == [WifiConnect];
    NoClientCall([WifiConnect]);
    LastClientCallAppend(calls, [WifiConnect]);
    StopsLatestAppend(calls, added);
  }

  lemma {:induction false} StartIsLatest(calls: seq<Call>, init: Option<Handle>)
    requires StopsLatest(calls)
    ensures var after := calls + [MqttStart(init), MqttRegisterEvent(init)];
      StopsLatest(after) && LastClientCall(after) == Some(MqttStart(init))
  {
    var added := [MqttStart(init), MqttRegisterEvent(init)];
    assert added[..1] == [MqttStart(init)];
    LastClientCallAppend(calls, added);
    StopsLatestAppend(calls, added);
  }

  lemma {:induction false} OthersKeepLatest(calls: seq<Call>, added: seq<Call>)
    requires StopsLatest(calls) && forall c :: c in added ==> !c.MqttStart? && !c.MqttStop?
    ensures StopsLatest(calls + added) && LastClientCall(calls + added) == LastClientCall(calls)
  {
    NoClientCall(added);
    LastClientCallAppend(calls, added);
    StopsLatestAppend(calls, added);
  }

  lemma {:induction false} StopsLatestStep(calls: seq<Call>, status: Byte, l: Link, ev: WifiEvent)
    requires StopsLatest(calls) && (l.client.Some? ==> LastClientCall(calls) == Some(MqttStart(l.client)))
    ensures var after, client := calls + CallsFor(status, l, ev), After(status, l, ev).client;
      StopsLatest(after) && (client.Some? ==> LastClientCall(after) == Some(MqttStart(client)))
  {
    if ev.StaConnected? && status == 1 {
      StartIsLatest(calls, ev.init);
    } else if ev.StaDisconnected? && status == 1 && l.client.Some? {
      StopIsLatest(calls, l.client.value);
    } else {
      OthersKeepLatest(calls, CallsFor(status, l, ev));
    }
  }

  /** What is stopped is always the client started last, and it has not been stopped yet. */
  lemma {:induction false} StopsLatestClient(status: Byte, evs: seq<WifiEvent>)
    ensures StopsLatest(Calls(status, evs))
    ensures Replay(status, evs).client.Some? ==>
      LastClientCall(Calls(status, evs)) == Some(MqttStart(Replay(status, evs).client))
    decreases |evs|
  {
    if evs != [] {
      var front, ev := evs[..|evs| - 1], evs[|evs| - 1];
      StopsLatestClient(status, front);
      StopsLatestStep(Calls(status, front), status, Replay(status, front), ev);
    }
  }

  // ---------------------------------------------------------------- the code

  class WifiManager {
    var status: Byte
    var server: Option<Handle>
    var client: Option<Handle>

    function View(): Link
      reads this
    {
      Link(server, client)
    }

    constructor (initialStatus: Byte)
      ensures status == initialStatus && View() == NO_LINK
    {
      status := initialStatus;
      server := None;
      client := None;
    }

    method StartWebserver(start: Option<Handle>) returns (handle: Option<Handle>, calls: seq<Call>)
      ensures handle == start
      ensures calls == if start == None then [HttpStart(start)]
                       else [HttpStart(start), RegisterUri(start.value, "/"), RegisterUri(start.value, "/ws")]
    {
      calls := [HttpStart(start)];
      if start.Some? {
        calls := calls + [RegisterUri(start.value, "/")];
        calls := calls + [RegisterUri(start.value, "/ws")];
        return start, calls;
      }
      return None, calls;
    }

    method MqttAppStart(init: Option<Handle>) returns (calls: seq<Call>)
      modifies this`client
      ensures client == init && calls == [MqttStart(init)]
    {
      client := init;
      calls := [MqttStart(client)];
    }

    method WifiEventHandler(ev: WifiEvent) returns (calls: seq<Call>)
      modifies this`server, this`client
      ensures View() == After(status, old(View()), ev)
      ensures calls == CallsFor(status, old(View()), ev)
    {
      calls := [];
      match ev
      case ApStaConnected(start) =>
        if server == None {
          server, calls := StartWebserver(start);
        }
      case StaStart =>
        calls := [WifiConnect];
      case StaDisconnected =>
        calls := [WifiConnect];
        if client != None && status == 1 {
          calls := calls + [MqttStop(client.value)];
          calls := calls + [MqttDisconnect(client.value)];
          calls := calls + [MqttUnregisterEvent(client.value)];
          client := None;
        }
      case StaConnected(init) =>
        if status == 1 {
          calls := MqttAppStart(init);
          calls := calls + [MqttRegisterEvent(client)];
        }
      case _ =>
    }
  }
}
