/** The handlers themselves, as methods on the device's objects.  Each takes the machine of
    module Device through exactly one step. */
module Firmware {
  import opened CTypes
  import opened CText
  import opened Device
  import opened Nvs
  import opened Spiffs
  import ApInfo
  import PageServer
  import WifiLink
  import WifiScan

  class Gateway {
    const nvs: NvsFlash
    const volume: Volume
    const wifi: WifiLink.WifiManager
    var queue: seq<Word>
    var up: bool

    ghost predicate Valid()
      reads this, wifi
    {
      wifi.status == STATUS
    }

    function View(): Device
      reads this, nvs, volume, wifi
    {
      Device(up, nvs.View(), volume.files, queue, wifi.View())
    }

    /** A device that is switched off, with the given flash contents. */
    constructor (store: Store, files: Files)
      ensures Valid() && fresh(nvs) && fresh(volume) && fresh(wifi)
      ensures View() == Device(false, store, files, [], WifiLink.NO_LINK)
    {
      nvs := new NvsFlash(store);
      volume := new Volume(files);
      wifi := new WifiLink.WifiManager(STATUS);
      queue := [];
      up := false;
    }

    /** esp_restart, an abort, or loss of power: RAM is gone. */
    method Restart()
      requires Valid()
      modifies this, wifi
      ensures Valid() && View() == Down(old(View()))
    {
      up := false;
      queue := [];
      wifi.server := None;
      wifi.client := None;
    }

    method AppMain(io: BootIo) returns (obs: seq<Obs>)
      requires Valid() && !up
      modifies this, nvs, volume, wifi
      ensures Valid() && (View(), obs) == Step(old(View()), Boot(io))
    {
      obs := [];
      Restart();
      nvs.Restart(io.landed);
      var outcome := nvs.InitNvs(io.init);
      if outcome == Aborted {
        return;
      }
      if io.mount == Formatted {
        volume.files := map[];
      }
      var savedData := nvs.GetSavedData32FromFlash(CONFIG_KEY, io.read);
      if savedData == None {
        return;
      }
      up := true;
      match savedData.value {
        case 0 => obs := [Booted(Setup)];
        case 1 => obs := [Booted(Operation)];
        case _ => obs := [Booted(NoMode)];
      }
    }

    method GpioIsrHandler(pin: Word)
      requires Valid() && up
      modifies this
      ensures Valid() && (View(), []) == Step(old(View()), Interrupt(pin))
    {
      if |queue| < QUEUE_SIZE {
        queue := queue + [pin];
      }
    }

    /** One turn of the endless loop, once there is something to receive. */
    method GpioTask(first: NvsIo, second: NvsIo) returns (obs: seq<Obs>)
      requires Valid() && up && queue != []
      modifies this, nvs, wifi
      ensures Valid() && (View(), obs) == Step(old(View()), GpioTurn(first, second))
    {
      var ioNum := queue[0];
      queue := queue[1..];
      var outcome := nvs.SaveDataU32InFlash(CONFIG_KEY, 0, first);
      obs := [WroteU32(CONFIG_KEY, 0, outcome)];
      if outcome == Aborted {
        Restart();
        return;
      }
      if ioNum == SETUP_BUTTON {
        outcome := nvs.SaveDataU32InFlash(CONFIG_KEY, 0, second);
        obs := obs + [WroteU32(CONFIG_KEY, 0, outcome)];
        Restart();
      }
    }

    method SendConfig(io: FileIo) returns (obs: seq<Obs>)
      requires Valid()
      ensures obs == match ReadText(volume.files, CONFIG_PATH, io)
                     case Some(text) => [Replied(ConfigText(text))]
                     case None => [QueryFailed]
    {
      var message := volume.ReadData(CONFIG_PATH, io);
      if message == null {
        return [QueryFailed];
      }
      return [Replied(ConfigText(CStr(message[..])))];
    }

    method TryStation(io: WsIo) returns (obs: seq<Obs>)
      requires Valid()
      modifies this, wifi
      ensures Valid()
      ensures View() == if io.stationSet && io.stationCleared then old(View()) else Down(old(View()))
      ensures obs == if io.stationSet && io.stationCleared then [Replied(WifiState(WifiText(io)))] else []
    {
      obs := [];
      if !io.stationSet {
        Restart();
        return;
      }
      var text := "Wifi Not Connect";
      if io.connected {
        var info := ApInfo.GetApInfo(io.ap, io.apMalloc);
        text := CStr(info[..]);
      }
      if !io.stationCleared {
        Restart();
        return;
      }
      obs := [Replied(WifiState(text))];
    }

    method ResetConfig(io: WsIo) returns (obs: seq<Obs>)
      requires Valid()
      modifies this, nvs, volume, wifi
      ensures Valid()
      ensures (View(), obs) == WsStep(old(View()), Root(6, "", ""), io)
    {
      var key := Key("storage", io.resetKey);
      var _ := volume.StoreData(CONFIG_PATH, EMPTY_CONFIG, io.file);
      var outcome := nvs.SaveDataU32InFlash(key, 0, io.nvs);
      obs := [WroteU32(key, 0, outcome)];
      if outcome == Aborted {
        Restart();
        return;
      }
      obs := [WroteU32(key, 0, outcome), Replied(ResetAck(outcome == Returned(Ok)))];
    }

    method SwitchMode(io: WsIo) returns (obs: seq<Obs>)
      requires Valid()
      modifies this, nvs, wifi
      ensures Valid()
      ensures (View(), obs) == WsStep(old(View()), Root(7, "", ""), io)
    {
      var outcome := nvs.SavedDataInFlash(MODE_KEY, "1", io.nvs);
      obs := [WroteStr(MODE_KEY, "1", outcome)];
      if outcome != Aborted {
        var mode := nvs.GetSavedDataFromFlash(MODE_KEY, io.read);
        obs := [WroteStr(MODE_KEY, "1", outcome), ModeLogged(mode)];
      }
      Restart();
    }

    method WebsocketCallback(root: Option<Root>, io: WsIo) returns (obs: seq<Obs>)
      requires Valid() && up
      modifies this, nvs, volume, wifi
      ensures Valid() && (View(), obs) == Step(old(View()), Ws(root, io))
    {
      obs := [];
      if root == None {
        return;
      }
      var state := root.value.state;
      if state == 0 {
        obs := SendConfig(io.file);
      } else if state == 1 {
        if io.scan == None {
          Restart();
          return;
        }
        var found := io.scan.value;
        var records := new WifiScan.Record[WifiScan.DEFAULT_SCAN_LIST_SIZE]
          (i requires 0 <= i < |found.records| => found.records[i]);
        assert records[..] == found.records;
        var items := WifiScan.WifiScanAp(records, found.apCount);
        obs := [Replied(ScanList(items))];
      } else if state == 2 {
        obs := TryStation(io);
      } else if state == 5 {
        var err := volume.StoreData(CONFIG_PATH, root.value.printed, io.file);
        obs := [Replied(StoreAck(err == EspOk))];
      } else if state == 6 {
        obs := ResetConfig(io);
      } else if state == 7 {
        obs := SwitchMode(io);
      } else if state == 8 {
        var path := FormatText(23, if '%' in root.value.readpath then io.garbled else root.value.readpath);
        volume.DeleteFiles(path, io.removeOk);
      }
    }

    method ConfigGetHandler(openOk: bool) returns (obs: seq<Obs>)
      requires Valid() && up
      ensures (View(), obs) == Step(View(), GetPage(openOk))
    {
      var file := if openOk && PAGE_PATH in volume.files then Some(volume.files[PAGE_PATH]) else None;
      var found, sent := PageServer.ConfigGetHandler(file);
      return [PageSent(found, sent)];
    }

    method WifiEvent(ev: WifiLink.WifiEvent) returns (obs: seq<Obs>)
      requires Valid() && up
      modifies wifi
      ensures Valid() && (View(), obs) == Step(old(View()), Wifi(ev))
    {
      var calls := wifi.WifiEventHandler(ev);
      return [Called(calls)];
    }
  }
}
