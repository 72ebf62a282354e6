/** The device as a machine: flash survives restarts, RAM does not, and every step is one
    call of a handler with whatever the libraries answer during it. */
module Device {
  import opened CTypes
  import opened CText
  import opened Nvs
  import opened Spiffs
  import ApInfo
  import PageServer
  import WifiLink
  import WifiScan

  const CONFIG_KEY := Key("storage", "CONFIG")
  const MODE_KEY := Key("storage", "mode")
  const CONFIG_PATH := "/spiffs/Config.txt"
  const EMPTY_CONFIG := "{}"
  const PAGE_PATH := "/spiffs/Configurationpage.html"
  const QUEUE_SIZE: nat := 10
  const SETUP_BUTTON: Word := 0
  /** `status` is initialised to 0 and no live line assigns it. */
  const STATUS: Byte := 0

  datatype Device = Device(up: bool, nvs: Store, files: Files, queue: seq<Word>, link: WifiLink.Link)

  datatype Mode = Setup | Operation | NoMode

  // ---------------------------------------------------------------- events and observations

  datatype Mount = Mounted | Formatted | MountFailed

  datatype BootIo = BootIo(landed: set<Key>, init: NvsIo, mount: Mount, read: NvsIo)

  /** The parsed message: "state", the text cJSON_Print gives for the whole of it, and
      "readpath". */
  datatype Root = Root(state: int, printed: Text, readpath: Text)

  /** `resetKey` is KEY_cons, which the repository does not define; `garbled` is what
      snprintf makes of a name that is no plain text but a format with directives. */
  datatype WsIo = WsIo(file: FileIo, nvs: NvsIo, read: NvsIo, resetKey: string,
                       scan: Option<WifiScan.Scan>,
                       stationSet: bool, connected: bool, ap: Option<ApInfo.ValidAp>, apMalloc: bool, stationCleared: bool,
                       garbled: Text, removeOk: bool)

  datatype Event =
    | PowerLoss
    | Boot(boot: BootIo)
    | Interrupt(pin: Word)
    | GpioTurn(first: NvsIo, second: NvsIo)
    | Ws(root: Option<Root>, io: WsIo)
    | GetPage(openOk: bool)
    | Wifi(wifi: WifiLink.WifiEvent)

  datatype Reply =
    | ConfigText(text: string)
    | ScanList(items: seq<WifiScan.Item>)
    | WifiState(state: string)
    | StoreAck(stored: bool)
    | ResetAck(reset: bool)

  datatype Obs =
    | Booted(mode: Mode)
    | WroteU32(key: Key, n: Word, outcome: Outcome)
    | WroteStr(strKey: Key, text: string, strOutcome: Outcome)
    | ModeLogged(logged: Option<string>)
    | Replied(reply: Reply)
    | QueryFailed
    | PageSent(found: bool, sent: seq<string>)
    | Called(calls: seq<WifiLink.Call>)

  // ---------------------------------------------------------------- steps

  /** RAM is lost. */
  function Down(d: Device): Device {
    d.(up := false, queue := [], link := WifiLink.NO_LINK)
  }

  function ModeOf(saved: Word): Mode {
    if saved == 0 then Setup else if saved == 1 then Operation else NoMode
  }

  function BootStep(d: Device, io: BootIo): (Device, seq<Obs>) {
    var (ready, init) := Initialized(Restarted(d.nvs, io.landed), io.init);
    if init == Aborted then (Down(d).(nvs := ready), [])
    else
      var files := if io.mount == Formatted then map[] else d.files;
      var (nvs, saved) := GotU32(ready, CONFIG_KEY, io.read);
      if saved == None then (Down(d).(nvs := nvs, files := files), [])
      else (Down(d).(up := true, nvs := nvs, files := files), [Booted(ModeOf(saved.value))])
  }

  function GpioStep(d: Device, first: NvsIo, second: NvsIo): (Device, seq<Obs>)
    requires d.queue != []
  {
    var (nvs1, out1) := SavedU32(d.nvs, CONFIG_KEY, 0, first);
    var obs1 := [WroteU32(CONFIG_KEY, 0, out1)];
    if out1 == Aborted then (Down(d.(nvs := nvs1)), obs1)
    else if d.queue[0] != SETUP_BUTTON then (d.(nvs := nvs1, queue := d.queue[1..]), obs1)
    else
      var (nvs2, out2) := SavedU32(nvs1, CONFIG_KEY, 0, second);
      (Down(d.(nvs := nvs2)), obs1 + [WroteU32(CONFIG_KEY, 0, out2)])
  }

  /** The name delete_files receives: snprintf(path, 23, readpath). */
  function DeleteName(root: Root, io: WsIo): (name: Text) {
    Take(if '%' in root.readpath then io.garbled else root.readpath, 22)
  }

  function WifiText(io: WsIo): string {
    if !io.connected then "Wifi Not Connect"
    else if io.ap.Some? && io.apMalloc then ApInfo.Text(io.ap.value)
    else ""
  }

  function WsStep(d: Device, root: Root, io: WsIo): (Device, seq<Obs>) {
    match root.state
    case 0 =>
      (d, match ReadText(d.files, CONFIG_PATH, io.file)
          case Some(text) => [Replied(ConfigText(text))]
          case None => [QueryFailed])
    case 1 =>
      if io.scan == None then (Down(d), [])
      else (d, [Replied(ScanList(WifiScan.Listing(io.scan.value.records, io.scan.value.apCount)))])
    case 2 =>
      if !io.stationSet || !io.stationCleared then (Down(d), []) else (d, [Replied(WifiState(WifiText(io)))])
    case 5 =>
      var (files, err) := Stored(d.files, CONFIG_PATH, root.printed, io.file);
      (d.(files := files), [Replied(StoreAck(err == EspOk))])
    case 6 =>
      var (files, _) := Stored(d.files, CONFIG_PATH, EMPTY_CONFIG, io.file);
      var key := Key("storage", io.resetKey);
      var (nvs, out) := SavedU32(d.nvs, key, 0, io.nvs);
      if out == Aborted then (Down(d.(files := files, nvs := nvs)), [WroteU32(key, 0, out)])
      else (d.(files := files, nvs := nvs), [WroteU32(key, 0, out), Replied(ResetAck(out == Returned(Ok)))])
    case 7 =>
      var (nvs, out) := SavedStr(d.nvs, MODE_KEY, "1", io.nvs);
      var wrote := WroteStr(MODE_KEY, "1", out);
      (Down(d.(nvs := nvs)), if out == Aborted then [wrote] else [wrote, ModeLogged(GotStr(nvs, MODE_KEY, io.read))])
    case 8 => (d.(files := Deleted(d.files, DeleteName(root, io), io.removeOk)), [])
    case _ => (d, [])
  }

  function PageStep(d: Device, openOk: bool): seq<Obs> {
    if openOk && PAGE_PATH in d.files then [PageSent(true, PageServer.Chunks(d.files[PAGE_PATH]) + [""])]
    else [PageSent(false, [])]
  }

  function Step(d: Device, e: Event): (Device, seq<Obs>) {
    if e.PowerLoss? then (Down(d), [])
    else if e.Boot? then (if d.up then (d, []) else BootStep(d, e.boot))
    else if !d.up then (d, [])
    else
      match e
      case Interrupt(pin) => (if |d.queue| < QUEUE_SIZE then d.(queue := d.queue + [pin]) else d, [])
      case GpioTurn(first, second) => if d.queue == [] then (d, []) else GpioStep(d, first, second)
      case Ws(root, io) => if root == None then (d, []) else WsStep(d, root.value, io)
      case GetPage(openOk) => (d, PageStep(d, openOk))
      case Wifi(ev) => (d.(link := WifiLink.After(STATUS, d.link, ev)), [Called(WifiLink.CallsFor(STATUS, d.link, ev))])
      case _ => (d, [])
  }

  /** The state after a run. */
  function Final(d: Device, evs: seq<Event>): Device
    decreases |evs|
  {
    if evs == [] then d else Final(Step(d, evs[0]).0, evs[1..])
  }

  /** All that is observed during a run, in order. */
  function Trace(d: Device, evs: seq<Event>): seq<Obs>
    decreases |evs|
  {
    if evs == [] then [] else Step(d, evs[0]).1 + Trace(Step(d, evs[0]).0, evs[1..])
  }
}
