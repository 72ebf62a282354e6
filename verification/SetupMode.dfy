/** Which mode the device boots into, over whole runs of the machine. */
module SetupMode {
  import opened CTypes
  import opened Device
  import opened Nvs

  /** What a stored number may ask of a boot. */
  datatype Aim = LeaveSetup | EnterOperation

  predicate Asks(n: Word, aim: Aim) {
    match aim case LeaveSetup => n != 0 case EnterOperation => n == 1
  }

  /** The boot did what the aim says. */
  predicate Meets(o: Obs, aim: Aim) {
    o.Booted? && match aim case LeaveSetup => o.mode != Setup case EnterOperation => o.mode == Operation
  }

  predicate Harmless(t: Table, aim: Aim) {
    CONFIG_KEY in t && t[CONFIG_KEY].U32? ==> !Asks(t[CONFIG_KEY].n, aim)
  }

  /** Nothing stored, durable or not, asks for it. */
  predicate Settled(s: Store, aim: Aim) {
    Harmless(s.committed, aim) && Harmless(s.pending, aim)
  }

  lemma SavesKeepSettled(s: Store, key: Key, io: NvsIo, aim: Aim)
    requires Settled(s, aim)
    ensures Settled(SavedU32(s, key, 0, io).0, aim)
  {
  }

  lemma ModeWritesKeepSettled(s: Store, text: string, io: NvsIo, aim: Aim)
    requires Settled(s, aim)
    ensures Settled(SavedStr(s, MODE_KEY, text, io).0, aim)
  {
  }

  lemma BootKeepsSettled(d: Device, io: BootIo, aim: Aim)
    requires Settled(d.nvs, aim)
    ensures Settled(BootStep(d, io).0.nvs, aim)
    ensures forall o :: o in BootStep(d, io).1 ==> !Meets(o, aim)
  {
  }

  /** The mode a boot selects: another one than Setup exactly when the number that survived
      the restart is not 0 and was read without any fault, and then Operation exactly for 1. */
  lemma BootModeExactly(d: Device, io: BootIo, m: Mode)
    requires Booted(m) in BootStep(d, io).1
    ensures var survived := Restarted(d.nvs, io.landed).committed;
      var faultless := && io.init.init !in {NoFreePages, NewVersionFound}
                       && io.read.init == io.read.open == io.read.read == Ok;
      var stored := CONFIG_KEY in survived && survived[CONFIG_KEY].U32?;
      && (m != Setup <==> faultless && stored && survived[CONFIG_KEY].n != 0)
      && (m == Operation <==> faultless && stored && survived[CONFIG_KEY].n == 1)
  {
  }

  lemma {:induction false} CommandKeepsSettled(d: Device, root: Root, io: WsIo, aim: Aim)
    requires Settled(d.nvs, aim)
    ensures Settled(WsStep(d, root, io).0.nvs, aim)
    ensures forall o :: o in WsStep(d, root, io).1 ==> !o.Booted?
  {
    SavesKeepSettled(d.nvs, Key("storage", io.resetKey), io.nvs, aim);
    ModeWritesKeepSettled(d.nvs, "1", io.nvs, aim);
  }

  /** No step of any kind stores what asks for another mode. */
  lemma {:induction false} StepKeepsSettled(d: Device, e: Event, aim: Aim)
    requires Settled(d.nvs, aim)
    ensures Settled(Step(d, e).0.nvs, aim)
    ensures forall o :: o in Step(d, e).1 ==> !Meets(o, aim)
  {
    match e
    case Boot(io) => BootKeepsSettled(d, io, aim);
    case GpioTurn(first, second) =>
      SavesKeepSettled(d.nvs, CONFIG_KEY, first, aim);
      SavesKeepSettled(SavedU32(d.nvs, CONFIG_KEY, 0, first).0, CONFIG_KEY, second, aim);
    case Ws(Some(root), io) => CommandKeepsSettled(d, root, io, aim);
    case _ =>
  }

  lemma {:induction false} SettledForever(d: Device, evs: seq<Event>, aim: Aim)
    requires Settled(d.nvs, aim)
    ensures forall o :: o in Trace(d, evs) ==> !Meets(o, aim)
    decreases |evs|
  {
    if evs != [] {
      StepKeepsSettled(d, evs[0], aim);
      SettledForever(Step(d, evs[0]).0, evs[1..], aim);
    }
  }

  /** One restart that meets the aim, if anything stored asks for it. */
  function Witness(d: Device, aim: Aim): seq<Event> {
    var ok := NvsIo(Ok, Ok, Ok, Ok, Ok, false, Ok, {}, Ok);
    [PowerLoss, Boot(BootIo(if Harmless(d.nvs.pending, aim) then {} else {CONFIG_KEY}, ok, Mounted, ok))]
  }

  lemma {:induction false} UnsettledCanMeet(d: Device, aim: Aim)
    requires !Settled(d.nvs, aim)
    ensures exists o :: o in Trace(d, Witness(d, aim)) && Meets(o, aim)
  {
    var evs := Witness(d, aim);
    var down, io := Down(d), evs[1].boot;
    var visible := Restarted(d.nvs, io.landed).Visible();
    assert CONFIG_KEY in visible && visible[CONFIG_KEY].U32? && Asks(visible[CONFIG_KEY].n, aim);
    var o := Booted(ModeOf(visible[CONFIG_KEY].n));
    assert BootStep(down, io).1 == [o];
    assert evs[1..][0] == Boot(io) && evs[1..][1..] == [];
    assert Trace(down, evs[1..]) == [o] + [];
    assert Trace(d, evs) == [] + Trace(down, evs[1..]);
    assert o in Trace(d, evs);
  }

  /** Some run leaves Setup, or enters Operation, exactly when a stored number asks for it
      from the beginning: no button, message, fault, erase or restart brings such a number
      about.  Blank storage never leads out of Setup. */
  lemma ModeReachableExactly(d: Device, aim: Aim)
    ensures (exists evs, o :: o in Trace(d, evs) && Meets(o, aim)) <==> !Settled(d.nvs, aim)
    ensures d.nvs == Store(map[], map[]) ==> Settled(d.nvs, aim)
  {
    if Settled(d.nvs, aim) {
      forall evs
        ensures forall o :: o in Trace(d, evs) ==> !Meets(o, aim)
      {
        SettledForever(d, evs, aim);
      }
    } else {
      UnsettledCanMeet(d, aim);
    }
  }

  predicate ConfigSaved(o: Obs) {
    o.WroteU32? && o.key == CONFIG_KEY && o.outcome == Returned(Ok)
  }

  lemma SavedConfigSettles(s: Store, io: NvsIo, aim: Aim)
    requires SavedU32(s, CONFIG_KEY, 0, io).1 == Returned(Ok)
    ensures Settled(SavedU32(s, CONFIG_KEY, 0, io).0, aim)
  {
  }

  lemma {:induction false} ReportedSaveSettles(d: Device, e: Event, o: Obs, aim: Aim)
    requires o in Step(d, e).1 && ConfigSaved(o)
    ensures Settled(Step(d, e).0.nvs, aim)
    ensures forall p :: p in Step(d, e).1 ==> !p.Booted?
  {
    match e
    case GpioTurn(first, second) =>
      var nvs1 := SavedU32(d.nvs, CONFIG_KEY, 0, first).0;
      if SavedU32(d.nvs, CONFIG_KEY, 0, first).1 == Returned(Ok) {
        SavedConfigSettles(d.nvs, first, aim);
        SavesKeepSettled(nvs1, CONFIG_KEY, second, aim);
      } else {
        SavedConfigSettles(nvs1, second, aim);
      }
    case Ws(Some(root), io) => SavedConfigSettles(d.nvs, io.nvs, aim);
    case _ =>
  }

  /** No boot out of Setup comes after a successful write of the key. */
  predicate Absorbed(obs: seq<Obs>) {
    forall i, j :: 0 <= i < j < |obs| && ConfigSaved(obs[i]) ==> !Meets(obs[j], LeaveSetup)
  }

  lemma AbsorbedConcat(a: seq<Obs>, b: seq<Obs>)
    requires Absorbed(b)
    requires (exists o :: o in a && ConfigSaved(o)) ==> forall o :: o in a + b ==> !Meets(o, LeaveSetup)
    ensures Absorbed(a + b)
  {
    forall i, j | 0 <= i < j < |a + b| && ConfigSaved((a + b)[i])
      ensures !Meets((a + b)[j], LeaveSetup)
    {
      if i < |a| {
        assert a[i] in a && (a + b)[j] in a + b;
      }
    }
  }

  /** A reported save settles the device, whatever follows. */
  lemma {:induction false} SavedStepStays(d: Device, e: Event, evs: seq<Event>)
    requires exists o :: o in Step(d, e).1 && ConfigSaved(o)
    ensures forall o :: o in Step(d, e).1 + Trace(Step(d, e).0, evs) ==> !Meets(o, LeaveSetup)
  {
    var o :| o in Step(d, e).1 && ConfigSaved(o);
    ReportedSaveSettles(d, e, o, LeaveSetup);
    SettledForever(Step(d, e).0, evs, LeaveSetup);
  }

  /** Setup mode is absorbing: in every run, from any storage, once a write of ("storage",
      "CONFIG") has been reported successful every later boot selects Setup. */
  lemma {:induction false} SetupAbsorbing(d: Device, evs: seq<Event>)
    ensures Absorbed(Trace(d, evs))
    decreases |evs|
  {
    if evs != [] {
      var (next, now) := Step(d, evs[0]);
      SetupAbsorbing(next, evs[1..]);
      if exists o :: o in now && ConfigSaved(o) {
        SavedStepStays(d, evs[0], evs[1..]);
      }
      AbsorbedConcat(now, Trace(next, evs[1..]));
    }
  }

  // ---------------------------------------------------------------- state 7

  /** When state 7 logs "1": exactly when nothing aborted, the string could be read, and the
      set had taken effect or the string had been there before.  The result of the commit,
      which alone makes it durable, plays no part. */
  lemma {:induction false} ModeLoggedExactly(d: Device, root: Root, io: WsIo)
    requires d.up && root.state == 7
    ensures var before := Initialized(d.nvs, io.nvs).0.Visible();
      ModeLogged(Some("1")) in Step(d, Ws(Some(root), io)).1 <==>
        && Initialized(d.nvs, io.nvs).1 == Returned(Ok)
        && io.read.open == io.read.read == Ok
        && (|| (io.nvs.open == Ok && io.nvs.write == Ok) || io.nvs.writeLanded
            || (MODE_KEY in before && before[MODE_KEY] == Str("1")))
  {
    if SavedStr(d.nvs, MODE_KEY, "1", io.nvs).1 != Aborted && io.read.open == io.read.read == Ok {
      SavedStrReadsBack(d.nvs, MODE_KEY, "1", io.nvs, io.read);
    }
  }
}
