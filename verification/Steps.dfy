/** What each step of the machine does, from the state, the message and the answers of the
    libraries alone. */
module Steps {
  import opened CTypes
  import opened CText
  import opened Device
  import opened Nvs
  import opened Spiffs
  import ApInfo
  import WifiScan

  // ---------------------------------------------------------------- power and boot

  /** Nothing in RAM. */
  predicate Cold(d: Device) {
    d.queue == [] && d.link.server == None && d.link.client == None
  }

  lemma PowerLossKeepsFlash(d: Device)
    ensures var (after, obs) := Step(d, PowerLoss);
      !after.up && Cold(after) && after.nvs == d.nvs && after.files == d.files && obs == []
  {
  }

  /** A device that is down does nothing until it is switched on. */
  lemma DownDoesNothing(d: Device, e: Event)
    requires !d.up && !e.Boot?
    ensures var (after, obs) := Step(d, e);
      !after.up && after.nvs == d.nvs && after.files == d.files && obs == []
      && (Cold(d) ==> after == d)
  {
  }

  predicate Erases(io: NvsIo) {
    WantsErase(io) && io.erase == Ok
  }

  /** What a boot finds under the key: what was committed, or had reached flash without a
      commit, unless the partition is erased on the way. */
  function Survivor(d: Device, io: BootIo): Option<Value> {
    if Erases(io.init) || Erases(io.read) then None
    else if CONFIG_KEY in d.nvs.pending && CONFIG_KEY in io.landed then Some(d.nvs.pending[CONFIG_KEY])
    else if CONFIG_KEY in d.nvs.committed then Some(d.nvs.committed[CONFIG_KEY])
    else None
  }

  /** The number the mode is selected by. */
  function BootNumber(d: Device, io: BootIo): Word {
    var found := Survivor(d, io);
    if FirstFailure([InitAnswer(io.read), io.read.open, io.read.read]) == Ok && found.Some? && found.value.U32?
    then found.value.n else 0
  }

  lemma {:induction false} BootReads(d: Device, io: BootIo)
    requires !Aborts(io.init)
    ensures var ready := Initialized(Restarted(d.nvs, io.landed), io.init).0;
      GotU32(ready, CONFIG_KEY, io.read).1 == if Aborts(io.read) then None else Some(BootNumber(d, io))
  {
    var restarted := Restarted(d.nvs, io.landed);
    var ready := Initialized(restarted, io.init).0;
    InitExactly(restarted, io.init);
    RestartExactly(d.nvs, io.landed, CONFIG_KEY);
    assert restarted.Visible() == restarted.committed;
    GotU32Exactly(ready, CONFIG_KEY, io.read);
  }

  /** A boot comes up exactly when neither initialisation has to erase and fails at it; it
      then selects SETUP for 0, whatever is missing or unreadable counting as 0, operation mode
      for 1, and no mode otherwise.  Flash survives unless the partition is erased, the files
      unless the volume is formatted. */
  lemma {:induction false} BootExactly(d: Device, io: BootIo)
    requires !d.up
    ensures var (after, obs) := Step(d, Boot(io)); var n := BootNumber(d, io);
      && (after.up <==> !Aborts(io.init) && !Aborts(io.read))
      && obs == (if !after.up then [] else [Booted(if n == 0 then Setup else if n == 1 then Operation else NoMode)])
      && Cold(after)
      && after.nvs == (if Erases(io.init) || (Erases(io.read) && !Aborts(io.init)) then Store(map[], map[])
                       else Restarted(d.nvs, io.landed))
      && after.files == if !Aborts(io.init) && io.mount == Formatted then map[] else d.files
  {
    var restarted := Restarted(d.nvs, io.landed);
    InitExactly(restarted, io.init);
    if !Aborts(io.init) {
      BootReads(d, io);
      GotU32Exactly(Initialized(restarted, io.init).0, CONFIG_KEY, io.read);
    }
  }

  /** A new device, and one whose partition is erased, boots into SETUP. */
  lemma {:induction false} BlankBootsSetup(d: Device, io: BootIo)
    requires !d.up && !Aborts(io.init) && !Aborts(io.read)
    requires d.nvs == Store(map[], map[]) || Erases(io.init) || Erases(io.read)
    ensures Step(d, Boot(io)).0.up && Step(d, Boot(io)).1 == [Booted(Setup)]
  {
    BootExactly(d, io);
  }

  // ---------------------------------------------------------------- button

  /** Only the queue changes, and only when there is room for one more. */
  lemma InterruptExactly(d: Device, pin: Word)
    requires d.up
    ensures var (after, obs) := Step(d, Interrupt(pin));
      && obs == [] && after == d.(queue := after.queue)
      && after.queue == if |d.queue| < 10 then d.queue + [pin] else d.queue
  {
  }

  /** What save_data_u32_in_flash returns. */
  function SaveOutcome(io: NvsIo): Outcome {
    if Aborts(io) then Aborted else Returned(FirstFailure([InitAnswer(io), io.open, io.write, io.commit]))
  }

  /** The first waiting entry leads to one save of 0, and to a second save and a restart when
      it is the button; an abort restarts the device on the spot.  Otherwise the queue alone
      moves on. */
  lemma {:induction false} GpioTurnExactly(d: Device, first: NvsIo, second: NvsIo)
    requires d.up && d.queue != []
    ensures var (after, obs) := Step(d, GpioTurn(first, second));
      var save1, save2 := WroteU32(CONFIG_KEY, 0, SaveOutcome(first)), WroteU32(CONFIG_KEY, 0, SaveOutcome(second));
      var nvs1 := SavedU32(d.nvs, CONFIG_KEY, 0, first).0;
      && obs == (if !Aborts(first) && d.queue[0] == 0 then [save1, save2] else [save1])
      && after.nvs == (if !Aborts(first) && d.queue[0] == 0 then SavedU32(nvs1, CONFIG_KEY, 0, second).0 else nvs1)
      && (after.up <==> !Aborts(first) && d.queue[0] != 0)
      && (if after.up then after.queue == d.queue[1..] && after.link == d.link else Cold(after))
      && after.files == d.files
  {
    SavedU32Exactly(d.nvs, CONFIG_KEY, 0, first);
    SavedU32Exactly(SavedU32(d.nvs, CONFIG_KEY, 0, first).0, CONFIG_KEY, 0, second);
  }

  lemma EmptyQueueWaits(d: Device, first: NvsIo, second: NvsIo)
    requires d.queue == []
    ensures Step(d, GpioTurn(first, second)) == (d, [])
  {
  }

  // ---------------------------------------------------------------- commands

  /** A message that cannot be parsed, or asks for nothing. */
  lemma UnknownCommand(d: Device, root: Option<Root>, io: WsIo)
    requires root == None || root.value.state !in {0, 1, 2, 5, 6, 7, 8}
    ensures Step(d, Ws(root, io)) == (d, [])
  {
  }

  /** Switching the mode always restarts the device; a scan without result, a station that
      cannot be set up or cleared, and a failing erase during a reset abort, and so restart it
      too; nothing else does. */
  predicate RestartsOn(root: Root, io: WsIo) {
    || root.state == 7
    || (root.state == 1 && io.scan == None)
    || (root.state == 2 && !(io.stationSet && io.stationCleared))
    || (root.state == 6 && Aborts(io.nvs))
  }

  lemma {:induction false} CommandRestartsExactly(d: Device, root: Root, io: WsIo)
    requires d.up
    ensures var after := Step(d, Ws(Some(root), io)).0;
      && (after.up <==> !RestartsOn(root, io))
      && (if after.up then after.queue == d.queue && after.link == d.link else Cold(after))
  {
    SavedU32Exactly(d.nvs, Key("storage", io.resetKey), 0, io.nvs);
  }

  /** Which flash contents a command can change: the key of a reset, the mode of state 7, the
      configuration file, and the one deleted path.  Everything else stays. */
  lemma {:induction false} CommandFrame(d: Device, root: Root, io: WsIo, path: string)
    requires d.up
    ensures var after := Step(d, Ws(Some(root), io)).0;
      && (root.state !in {6, 7} ==> after.nvs == d.nvs)
      && (root.state == 6 ==> after.nvs == SavedU32(d.nvs, Key("storage", io.resetKey), 0, io.nvs).0)
      && (root.state == 7 ==> after.nvs == SavedStr(d.nvs, Key("storage", "mode"), "1", io.nvs).0)
      && (root.state !in {5, 6, 8} ==> after.files == d.files)
      && (root.state in {5, 6} && (path != CONFIG_PATH || !io.file.openOk) ==>
            (path in after.files <==> path in d.files) && (path in d.files ==> after.files[path] == d.files[path]))
  {
  }

  /** State 0: the file's C text, or a failed query. */
  lemma QueryAnswer(d: Device, root: Root, io: WsIo)
    requires d.up && root.state == 0
    ensures var file, obs := io.file, Step(d, Ws(Some(root), io)).1;
      var readable := file.openOk && file.mallocOk && CONFIG_PATH in d.files && |d.files[CONFIG_PATH]| <= file.moved;
      && (readable ==> obs == [Replied(ConfigText(CStr(d.files[CONFIG_PATH])))])
      && (!readable ==> obs == [QueryFailed])
  {
  }

  /** State 1: the list, whose entries WifiScan.EntriesExactly describes. */
  lemma ScanAnswer(d: Device, root: Root, io: WsIo)
    requires d.up && root.state == 1
    ensures var obs := Step(d, Ws(Some(root), io)).1;
      && (io.scan == None ==> obs == [])
      && (io.scan.Some? ==> obs == [Replied(ScanList(WifiScan.Listing(io.scan.value.records, io.scan.value.apCount)))])
  {
  }

  /** State 2: "Wifi Not Connect" exactly when the station did not connect, and the empty text
      exactly when it did but the access point cannot be described. */
  lemma StationAnswer(d: Device, root: Root, io: WsIo)
    requires d.up && root.state == 2
    ensures var obs := Step(d, Ws(Some(root), io)).1;
      if !io.stationSet || !io.stationCleared then obs == []
      else
        && |obs| == 1 && obs[0].Replied? && obs[0].reply.WifiState?
        && (obs[0].reply.state == "Wifi Not Connect" <==> !io.connected)
        && (obs[0].reply.state == "" <==> io.connected && !(io.ap.Some? && io.apMalloc))
        && (io.connected && io.ap.Some? && io.apMalloc ==> obs[0].reply.state == ApInfo.Text(io.ap.value))
  {
    if io.ap.Some? {
      assert ApInfo.Text(io.ap.value)[0] == ' ' && "Wifi Not Connect"[0] == 'W';
    }
  }

  /** State 5: "ok" exactly when the file opened; it then holds what the device took of the
      message. */
  lemma StoreAnswer(d: Device, root: Root, io: WsIo)
    requires d.up && root.state == 5
    ensures var (after, obs) := Step(d, Ws(Some(root), io)); var n := Least(|root.printed|, io.file.moved);
      && obs == [Replied(StoreAck(io.file.openOk))]
      && (io.file.openOk ==> CONFIG_PATH in after.files && after.files[CONFIG_PATH] == root.printed[..n])
  {
  }

  /** State 6: the write is answered "ok" exactly when no library call of it failed. */
  lemma {:induction false} ResetAnswer(d: Device, root: Root, io: WsIo)
    requires d.up && root.state == 6
    ensures var (after, obs) := Step(d, Ws(Some(root), io)); var n, nvs := Least(2, io.file.moved), io.nvs;
      && obs == [WroteU32(Key("storage", io.resetKey), 0, SaveOutcome(nvs))] +
                (if Aborts(nvs) then [] else [Replied(ResetAck(SaveOutcome(nvs) == Returned(Ok)))])
      && (io.file.openOk ==> CONFIG_PATH in after.files && after.files[CONFIG_PATH] == "{}"[..n])
  {
    SavedU32Exactly(d.nvs, Key("storage", io.resetKey), 0, io.nvs);
  }

  /** What a reader sees under the mode key behind the save of state 7. */
  function ModeSeen(s: Store, io: NvsIo): Option<Value> {
    var t := BaseTable(s, io);
    if (io.open == Ok && io.write == Ok) || io.writeLanded then Some(Str("1"))
    else if MODE_KEY in t then Some(t[MODE_KEY]) else None
  }

  /** State 7: the save, and unless it aborted the string read back. */
  lemma {:induction false} ModeAnswer(d: Device, root: Root, io: WsIo)
    requires d.up && root.state == 7
    ensures var obs := Step(d, Ws(Some(root), io)).1; var seen := ModeSeen(d.nvs, io.nvs);
      if Aborts(io.nvs) || InitAnswer(io.nvs) != Ok then obs == [WroteStr(Key("storage", "mode"), "1", Aborted)]
      else
        && |obs| == 2 && obs[0] == WroteStr(Key("storage", "mode"), "1", Returned(io.nvs.commit))
        && obs[1] == ModeLogged(if io.read.open == io.read.read == Ok && seen.Some? && seen.value.Str?
                                then Some(seen.value.s) else None)
  {
    SavedStrOutcome(d.nvs, MODE_KEY, "1", io.nvs);
  }

  lemma CutsCompose(name: string)
    ensures Take("/spiffs/" + Take(name, 22), 19) == Take("/spiffs/" + name, 19)
  {
  }

  /** State 8: nothing is answered, and exactly one path can go.  For a plain name that is the
      prefixed name cut to 19 characters: the first of the two cuts never shows. */
  lemma {:induction false} DeleteAnswer(d: Device, root: Root, io: WsIo, path: string)
    requires d.up && root.state == 8
    ensures var (after, obs) := Step(d, Ws(Some(root), io));
      var name := if '%' in root.readpath then io.garbled else root.readpath;
      && obs == []
      && (path in after.files <==> path in d.files && !(io.removeOk && path == Take("/spiffs/" + name, 19)))
      && (path in after.files ==> after.files[path] == d.files[path])
  {
    DeleteExactly(d.files, DeleteName(root, io), io.removeOk, path);
    CutsCompose(if '%' in root.readpath then io.garbled else root.readpath);
  }

  // ---------------------------------------------------------------- pages and Wi-Fi events

  /** Serving the page and Wi-Fi events leave flash and queue alone. */
  lemma PassiveSteps(d: Device, e: Event)
    requires d.up && (e.GetPage? || e.Wifi?)
    ensures var after := Step(d, e).0;
      after.up && after.nvs == d.nvs && after.files == d.files && after.queue == d.queue
      && (e.GetPage? ==> after.link == d.link)
  {
  }
}
