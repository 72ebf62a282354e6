/** The file-backed configuration refines a single register: what a query answers over whole
    runs of the machine. */
module ConfigRegister {
  import opened CTypes
  import opened CText
  import opened Device
  import opened Nvs
  import opened Runs
  import opened Spiffs

  function Config(d: Device): Option<string> {
    if CONFIG_PATH in d.files then Some(d.files[CONFIG_PATH]) else None
  }

  /** What a command means for the register. */
  datatype Effect = Keep | Put(text: string) | Drop

  function Apply(register: Option<string>, effect: Effect): Option<string> {
    match effect
    case Keep => register
    case Put(text) => Some(text)
    case Drop => None
  }

  const CONFIG_NAME := "Config.txt"

  predicate Formats(e: Event) {
    e.Boot? && e.boot.mount == Formatted
  }

  function EffectOf(up: bool, e: Event): Effect {
    match e
    case Boot(io) =>
      var mounts := io.init.init !in {NoFreePages, NewVersionFound} || io.init.erase == Ok;
      if !up && mounts && Formats(e) then Drop else Keep
    case Ws(Some(root), io) =>
      if !up then Keep
      else if root.state == 5 && io.file.openOk then Put(Take(root.printed, io.file.moved))
      else if root.state == 6 && io.file.openOk then Put(Take(EMPTY_CONFIG, io.file.moved))
      else if root.state == 8 && io.removeOk && DeleteName(root, io) == CONFIG_NAME then Drop
      else Keep
    case _ => Keep
  }

  function RegisterAfter(d: Device, register: Option<string>, evs: seq<Event>): Option<string>
    decreases |evs|
  {
    if evs == [] then register
    else RegisterAfter(Step(d, evs[0]).0, Apply(register, EffectOf(d.up, evs[0])), evs[1..])
  }

  lemma DeletePathHits(name: string)
    ensures DeletePath(name) == CONFIG_PATH <==> name == CONFIG_NAME
  {
    assert CONFIG_PATH == BASE + CONFIG_NAME && |CONFIG_PATH| == 18;
    if DeletePath(name) == CONFIG_PATH {
      assert |BASE + name| == 18;
      assert (BASE + name)[8..] == name && CONFIG_PATH[8..] == CONFIG_NAME;
    }
  }

  /** Of all plain names only Config.txt itself deletes the configuration, in spite of the two
      truncations on the way. */
  lemma PlainDeleteHits(root: Root, io: WsIo)
    requires '%' !in root.readpath
    ensures DeletePath(DeleteName(root, io)) == CONFIG_PATH <==> root.readpath == CONFIG_NAME
  {
    DeletePathHits(DeleteName(root, io));
  }

  lemma {:induction false} CommandEffect(d: Device, root: Root, io: WsIo)
    requires d.up
    ensures Config(WsStep(d, root, io).0) == Apply(Config(d), EffectOf(true, Ws(Some(root), io)))
  {
    DeletePathHits(DeleteName(root, io));
  }

  lemma {:induction false} StepEffect(d: Device, e: Event)
    ensures Config(Step(d, e).0) == Apply(Config(d), EffectOf(d.up, e))
  {
    match e
    case Ws(Some(root), io) => if d.up { CommandEffect(d, root, io); }
    case _ =>
  }

  /** The file always holds what the register would. */
  lemma {:induction false} FileRefinesRegister(d: Device, evs: seq<Event>)
    ensures Config(Final(d, evs)) == RegisterAfter(d, Config(d), evs)
    decreases |evs|
  {
    if evs != [] {
      StepEffect(d, evs[0]);
      FileRefinesRegister(Step(d, evs[0]).0, evs[1..]);
    }
  }

  function EffectAt(d: Device, evs: seq<Event>, n: nat): Effect
    requires n < |evs|
  {
    EffectOf(Before(d, evs, n).up, evs[n])
  }

  lemma {:induction false} ConfigAt(d: Device, evs: seq<Event>, n: nat)
    requires n < |evs|
    ensures Config(Before(d, evs, n + 1)) == Apply(Config(Before(d, evs, n)), EffectAt(d, evs, n))
  {
    BeforeNext(d, evs, n);
    StepEffect(Before(d, evs, n), evs[n]);
  }

  /** Neither written nor lost from event `i` to event `j`. */
  ghost predicate Undisturbed(d: Device, evs: seq<Event>, i: nat, j: nat)
    requires j <= |evs|
  {
    forall k :: i <= k < j ==> EffectAt(d, evs, k) == Keep
  }

  ghost predicate Unwritten(d: Device, evs: seq<Event>, i: nat, j: nat)
    requires j <= |evs|
  {
    forall k :: i <= k < j ==> !EffectAt(d, evs, k).Put?
  }

  /** Without a further write the configuration stays exactly as long as nothing disturbs it,
      and is gone after that. */
  lemma {:induction false} KeptOrGone(d: Device, evs: seq<Event>, i: nat, j: nat)
    requires i <= j <= |evs| && Unwritten(d, evs, i, j)
    ensures Config(Before(d, evs, j)) == if Undisturbed(d, evs, i, j) then Config(Before(d, evs, i)) else None
    decreases j
  {
    if i < j {
      KeptOrGone(d, evs, i, j - 1);
      ConfigAt(d, evs, j - 1);
    }
  }

  /** What a query is answered when the register holds `register`. */
  function Answer(register: Option<string>, io: FileIo): Obs {
    if io.mallocOk && io.openOk && register.Some? && |register.value| <= io.moved
    then Replied(ConfigText(CStr(register.value))) else QueryFailed
  }

  predicate IsQuery(e: Event) {
    e.Ws? && e.root.Some? && e.root.value.state == 0
  }

  /** Over every run every query is answered from the register, and fails exactly when the
      register is empty or the file cannot be opened or read in full. */
  lemma {:induction false} QueryAnswersRegister(d: Device, evs: seq<Event>, j: nat)
    requires j < |evs| && IsQuery(evs[j]) && Before(d, evs, j).up
    ensures Step(Before(d, evs, j), evs[j]).1 == [Answer(RegisterAfter(d, Config(d), evs[..j]), evs[j].io.file)]
  {
    FileRefinesRegister(d, evs[..j]);
  }

  lemma {:induction false} QueryAnswersFile(d: Device, e: Event)
    requires d.up && IsQuery(e)
    ensures Step(d, e).1 == [Answer(Config(d), e.io.file)]
  {
  }

  lemma PutTextNulFree(up: bool, e: Event)
    requires EffectOf(up, e).Put?
    ensures NulFree(EffectOf(up, e).text)
  {
    assert NulFree(EMPTY_CONFIG);
    assert forall s: Text, n :: NulFree(Take(s, n));
  }

  /** Over every run, restarts and failures included: a query behind the latest save or reset
      is answered with its text, cut where the device stopped taking it, unless a deletion or
      formatting came in between; and then it fails. */
  lemma {:induction false} QueryReturnsLatestWrite(d: Device, evs: seq<Event>, i: nat, j: nat)
    requires i < j < |evs| && IsQuery(evs[j]) && Before(d, evs, j).up
    requires EffectAt(d, evs, i).Put? && Unwritten(d, evs, i + 1, j)
    ensures var text, io := EffectAt(d, evs, i).text, evs[j].io.file;
      Step(Before(d, evs, j), evs[j]).1 ==
        if Undisturbed(d, evs, i + 1, j) && io.mallocOk && io.openOk && |text| <= io.moved
        then [Replied(ConfigText(text))] else [QueryFailed]
  {
    QueryAnswersFile(Before(d, evs, j), evs[j]);
    ConfigAt(d, evs, i);
    KeptOrGone(d, evs, i + 1, j);
    PutTextNulFree(Before(d, evs, i).up, evs[i]);
  }

  /** Before the first write a query is answered with the initial file as long as that is
      neither deleted nor formatted away; and then it fails. */
  lemma {:induction false} QueryReturnsInitial(d: Device, evs: seq<Event>, j: nat)
    requires j < |evs| && IsQuery(evs[j]) && Before(d, evs, j).up
    requires Unwritten(d, evs, 0, j)
    ensures Step(Before(d, evs, j), evs[j]).1 ==
            [Answer(if Undisturbed(d, evs, 0, j) then Config(d) else None, evs[j].io.file)]
  {
    QueryAnswersFile(Before(d, evs, j), evs[j]);
    KeptOrGone(d, evs, 0, j);
    assert evs[..0] == [];
  }

  /** Over every run: a save that opens the file is answered "ok", and with no further save or
      reset in between, a query is answered with the saved text exactly when the device took
      all of it, nothing removed it since, and the file can be read in full again. */
  lemma {:induction false} SaveAckExactly(d: Device, evs: seq<Event>, i: nat, j: nat, root: Root, io: WsIo)
    requires i < j < |evs| && evs[i] == Ws(Some(root), io) && root.state == 5
    requires Before(d, evs, i).up && io.file.openOk
    requires IsQuery(evs[j]) && Before(d, evs, j).up && Unwritten(d, evs, i + 1, j)
    ensures Step(Before(d, evs, i), evs[i]).1 == [Replied(StoreAck(true))]
    ensures var read := evs[j].io.file;
      Step(Before(d, evs, j), evs[j]).1 == [Replied(ConfigText(root.printed))] <==>
        && |root.printed| <= io.file.moved
        && Undisturbed(d, evs, i + 1, j)
        && read.mallocOk && read.openOk && |root.printed| <= read.moved
  {
    assert EffectAt(d, evs, i) == Put(Take(root.printed, io.file.moved));
    QueryReturnsLatestWrite(d, evs, i, j);
  }

  /** Such a misleading acknowledgement exists: the save is answered "ok" and the next query
      with something else. */
  lemma {:induction false} SaveAckCanMislead(d: Device)
    requires d.up
    ensures exists save: Root, io, query: Root, read :: (
      && save.state == 5 && query.state == 0
      && WsStep(d, save, io).1 == [Replied(StoreAck(true))]
      && WsStep(WsStep(d, save, io).0, query, read).1 == [Replied(ConfigText(""))]
      && save.printed != "")
  {
    var ok := NvsIo(Ok, Ok, Ok, Ok, Ok, false, Ok, {}, Ok);
    var io := WsIo(FileIo(true, true, 0), ok, ok, "cons", None, true, true, None, true, true, "", true);
    var save, query := Root(5, "{}", ""), Root(0, "", "");
    assert Take(save.printed, 0) == "";
    assert WsStep(d, save, io).1 == [Replied(StoreAck(true))];
    assert WsStep(WsStep(d, save, io).0, query, io).1 == [Replied(ConfigText(""))];
  }

  /** The acknowledgement of a reset speaks of the flash write alone: it is "ok" exactly when
      that succeeded.  The configuration is empty afterwards exactly when the file was opened
      and written in full, or was the empty configuration already and could not be opened. */
  lemma ResetAckExactly(d: Device, root: Root, io: WsIo)
    requires d.up && root.state == 6
    ensures Replied(ResetAck(true)) in WsStep(d, root, io).1
      <==> SavedU32(d.nvs, Key("storage", io.resetKey), 0, io.nvs).1 == Returned(Ok)
    ensures Config(WsStep(d, root, io).0) == Some(EMPTY_CONFIG)
      <==> if io.file.openOk then 2 <= io.file.moved else Config(d) == Some(EMPTY_CONFIG)
  {
  }

  /** Such a misleading acknowledgement exists. */
  lemma ResetAckCanMislead(d: Device)
    requires d.up && Config(d) != Some(EMPTY_CONFIG)
    ensures exists root: Root, io :: root.state == 6 && Replied(ResetAck(true)) in WsStep(d, root, io).1
                                     && Config(WsStep(d, root, io).0) == Config(d)
  {
    var ok := NvsIo(Ok, Ok, Ok, Ok, Ok, false, Ok, {}, Ok);
    var root := Root(6, "", "");
    var io := WsIo(FileIo(true, false, 0), ok, ok, "cons", None, true, true, None, true, true, "", true);
    assert Replied(ResetAck(true)) in WsStep(d, root, io).1;
    CommandEffect(d, root, io);
  }
}
