/** The setup button over whole runs of the machine. */
module ButtonRuns {
  import opened Device
  import opened Nvs
  import opened Runs
  import SetupMode

  /** gpio_isr_handler is only ever added for the setup button. */
  predicate OnlyButton(evs: seq<Event>) {
    forall i :: 0 <= i < |evs| && evs[i].Interrupt? ==> evs[i].pin == SETUP_BUTTON
  }

  predicate ButtonQueue(d: Device) {
    forall i :: 0 <= i < |d.queue| ==> d.queue[i] == SETUP_BUTTON
  }

  lemma {:induction false} StepKeepsButtonQueue(d: Device, e: Event)
    requires ButtonQueue(d)
    requires e.Interrupt? ==> e.pin == SETUP_BUTTON
    ensures ButtonQueue(Step(d, e).0)
  {
  }

  /** The event makes gpio_task take an entry out of the queue. */
  predicate Serves(d: Device, e: Event) {
    d.up && e.GpioTurn? && d.queue != []
  }

  /** How many entries are taken out in the run. */
  function Served(d: Device, evs: seq<Event>): nat
    decreases |evs|
  {
    if evs == [] then 0 else (if Serves(d, evs[0]) then 1 else 0) + Served(Step(d, evs[0]).0, evs[1..])
  }

  /** The interrupt finds room in the queue. */
  predicate Accepts(d: Device, e: Event) {
    d.up && e.Interrupt? && |d.queue| < QUEUE_SIZE
  }

  function Accepted(d: Device, evs: seq<Event>): nat
    decreases |evs|
  {
    if evs == [] then 0 else (if Accepts(d, evs[0]) then 1 else 0) + Accepted(Step(d, evs[0]).0, evs[1..])
  }

  /** The entries that go down with the device, not counting one taken out just before. */
  function LostNow(d: Device, e: Event): nat {
    if d.up && !Step(d, e).0.up then |d.queue| - (if Serves(d, e) then 1 else 0) else 0
  }

  function Lost(d: Device, evs: seq<Event>): nat
    decreases |evs|
  {
    if evs == [] then 0 else LostNow(d, evs[0]) + Lost(Step(d, evs[0]).0, evs[1..])
  }

  function Boots(obs: seq<Obs>): nat {
    if obs == [] then 0 else (if obs[0].Booted? then 1 else 0) + Boots(obs[1..])
  }

  lemma {:induction false} BootsConcat(a: seq<Obs>, b: seq<Obs>)
    ensures Boots(a + b) == Boots(a) + Boots(b)
  {
    if a == [] {
      assert a + b == b;
    } else {
      assert (a + b)[1..] == a[1..] + b;
      BootsConcat(a[1..], b);
    }
  }

  function Upness(d: Device): nat {
    if d.up then 1 else 0
  }

  /** The pins that really occur: taking one out of the queue always ends the boot. */
  lemma {:induction false} ServingEndsTheBoot(d: Device, e: Event)
    requires Serves(d, e) && ButtonQueue(d)
    ensures !Step(d, e).0.up && Step(d, e).0.queue == []
  {
    assert d.queue[0] == SETUP_BUTTON;
  }

  lemma {:induction false} StepPays(d: Device, e: Event)
    requires ButtonQueue(d)
    ensures (if Serves(d, e) then 1 else 0) + Upness(Step(d, e).0) <= Boots(Step(d, e).1) + Upness(d)
  {
    if Serves(d, e) {
      ServingEndsTheBoot(d, e);
    }
  }

  /** The presses waiting behind the one that is served are lost: none is exactly when it was
      the only one. */
  lemma {:induction false} ServingLosesOthers(d: Device, e: Event)
    requires Serves(d, e) && ButtonQueue(d)
    ensures LostNow(d, e) == |d.queue| - 1
    ensures LostNow(d, e) == 0 <==> |d.queue| == 1
  {
    ServingEndsTheBoot(d, e);
  }

  lemma {:induction false} StepAccounts(d: Device, e: Event)
    requires Sound(d)
    ensures |d.queue| + (if Accepts(d, e) then 1 else 0) ==
            (if Serves(d, e) then 1 else 0) + LostNow(d, e) + |Step(d, e).0.queue|
  {
  }

  /** Over every run, restarts included, each press that found room in the queue is served
      once, lost in a restart, or still waiting. */
  lemma {:induction false} PressesAccountedFor(d: Device, evs: seq<Event>)
    requires Sound(d)
    ensures |d.queue| + Accepted(d, evs) == Served(d, evs) + Lost(d, evs) + |Final(d, evs).queue|
    decreases |evs|
  {
    if evs != [] {
      StepKeepsSound(d, evs[0]);
      StepAccounts(d, evs[0]);
      PressesAccountedFor(Step(d, evs[0]).0, evs[1..]);
    }
  }

  /** At most one press is served per boot, however many are queued: in every run the presses
      served are no more than the boots, counting the one in progress at the start and not
      counting the one in progress at the end. */
  lemma {:induction false} OnePressPerBoot(d: Device, evs: seq<Event>)
    requires ButtonQueue(d) && OnlyButton(evs)
    ensures Served(d, evs) + Upness(Final(d, evs)) <= Boots(Trace(d, evs)) + Upness(d)
    decreases |evs|
  {
    if evs != [] {
      var next, rest := Step(d, evs[0]).0, evs[1..];
      StepKeepsButtonQueue(d, evs[0]);
      StepPays(d, evs[0]);
      OnePressPerBoot(next, rest);
      BootsConcat(Step(d, evs[0]).1, Trace(next, rest));
    }
  }

  /** A press that is served restarts the device, and every later boot of every continuation
      selects Setup if either of the two saves was reported successful. */
  lemma {:induction false} PressLeadsToSetup(d: Device, first: NvsIo, second: NvsIo, evs: seq<Event>)
    requires d.up && d.queue != [] && d.queue[0] == SETUP_BUTTON
    requires var saved := SavedU32(d.nvs, CONFIG_KEY, 0, first);
      saved.1 == Returned(Ok) || (saved.1 != Aborted && SavedU32(saved.0, CONFIG_KEY, 0, second).1 == Returned(Ok))
    ensures !Step(d, GpioTurn(first, second)).0.up
    ensures forall o :: o in Trace(Step(d, GpioTurn(first, second)).0, evs) && o.Booted? ==> o.mode == Setup
  {
    var e := GpioTurn(first, second);
    var saved := SavedU32(d.nvs, CONFIG_KEY, 0, first);
    var obs := Step(d, e).1;
    if saved.1 == Returned(Ok) {
      assert SetupMode.ConfigSaved(obs[0]) && obs[0] in obs;
    } else {
      assert SetupMode.ConfigSaved(obs[1]) && obs[1] in obs;
    }
    SetupMode.SavedStepStays(d, e, evs);
    assert forall o :: o in Trace(Step(d, e).0, evs) ==> !SetupMode.Meets(o, SetupMode.LeaveSetup);
  }
}
