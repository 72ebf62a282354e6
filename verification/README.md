# Gateway firmware: a verified model

This project models the part of the ESP32 gateway firmware that does its own string, buffer,
file and state work, together with the two mbed TLS library functions that do the same, and
proves what that code keeps and promises. A `char` stands for one C `char`. What a library
answers during a call (an error code, how many bytes a device took, which handle it made) is
an argument of the modelled call, so every statement holds for all answers.

| file | content |
|---|---|
| `Arithmetic.dfy` | quotients and remainders |
| `CText.dfy` | C strings, the printf conversions with their inverses, `snprintf` with truncation (section 7.19.6.5 of ISO/IEC 9899:1999) |
| `ErrorText.dfy` | `mbedtls_strerror`: masks, tables, the message in the caller's buffer |
| `VersionFeatures.dfy` | `mbedtls_version_check_feature` over NUL-terminated strings in exact allocations |
| `ApInfo.dfy` | `get_ap_info` and a parser that undoes it |
| `WifiScan.dfy` | `wifi_scan_ap` and the index bound of the page's list loop |
| `Spiffs.dfy` | files: word arrays, whole texts, removal, truncated paths |
| `PageServer.dfy` | the `fgets` loop that sends the page in chunks |
| `Nvs.dfy` | the NVS functions over pending and committed values |
| `WifiLink.dfy` | `wifi_event_handler`: web server and MQTT client |
| `Device.dfy` | the whole device as a step machine; flash survives a restart, RAM does not |
| `Steps.dfy` | what every step of that machine does, from the state, the message and the libraries' answers alone |
| `Runs.dfy` | runs cut into pieces, and what every reachable state satisfies |
| `SetupMode.dfy`, `ConfigRegister.dfy`, `PageRuns.dfy`, `LinkRuns.dfy`, `ButtonRuns.dfy` | properties of all runs of that machine |
| `Firmware.dfy` | the handlers as methods, each proved to be one step of the machine |

`dafny verify dfyconfig.toml` checks everything.

## Where the code does less than it seems

Each of these is a theorem below, with the exact condition under which the code does what a
caller would expect.

- `store_data` returns `ESP_OK` as soon as the file is open; `fprintf`'s result is ignored (`Spiffs.StoredTextReadsBack`, `ConfigRegister.SaveAckExactly`, `ConfigRegister.SaveAckCanMislead`).
- The answer "ok" to a reset (state 6) speaks of the flash write alone, because `err` is overwritten (`ConfigRegister.ResetAckExactly`, `ConfigRegister.ResetAckCanMislead`).
- `saved_data_in_flash` returns the result of the commit even when opening or setting failed (`Nvs.SavedStrExactly`, `Nvs.SavedStrCanMislead`).
- A page with a NUL in it does not arrive, and only such a page (`PageServer.PageArrives`).
- Saving and deleting cut paths at different lengths (`Spiffs.DeleteAfterSave`).
- A repeated connection event loses the handle of a running MQTT client (`WifiLink.ClientBalance`, `WifiLink.OneClientExactly`); since `status` is never assigned after its initial 0, no client is started at all (`LinkRuns.NoClientAsShipped`).
- State 7 writes the key "mode", not the key that is read at boot: no run enters operation mode unless a 1 was stored under that key from the beginning (`SetupMode.ModeReachableExactly`).
- Of several queued button presses only the first is served: a served press loses none exactly when it is the only one waiting (`ButtonRuns.ServingLosesOthers`, `ButtonRuns.PressesAccountedFor`).
- The page's list loop reads past the array exactly when more than 21 networks are reported, and drops a network exactly when there are 1 to 20, and then the last (`WifiScan.PageIndicesInBounds`, `WifiScan.PageDropsLastExactly`).

Two defects of the text are read as follows. `KEY_cons` (main/inc/config_mode.h:141) is defined
nowhere; it is an arbitrary key. The variable at main/inc/config_mode.h:154 has the name of a
macro; the line is modelled as reading back the string saved one line before.

## Model

| member | source | states |
|---|---|---|
| CText.Snprintf | esp-idf/mbedtls/mbedtls/library/error.c:814-816 | `snprintf`: the buffer afterwards as a function of the one before, with truncation, the NUL, and nothing written for size 0; the untruncated length is returned |
| CText.PrintedExactly | esp-idf/mbedtls/mbedtls/library/error.c:814-816 | the cut text and one NUL replace as many characters of the buffer, and every other character stays |
| CText.Strlen | esp-idf/mbedtls/mbedtls/library/error.c:837 | the length of the C text at an offset, never reading past its NUL |
| CText.FormatText | main/inc/config_mode.h:164 | a text printed into a fresh buffer and read back is cut to one less than the buffer |
| CText.Hex4ReadBack | esp-idf/mbedtls/mbedtls/library/error.c:814 | `%04X` prints at least four digits and loses nothing, for values of any width |
| CText.DecReadBack | main/inc/wifi_manager.h:238-239 | `%d` is undone by a signed decimal reader |
| CText.Hex4Exactly | esp-idf/mbedtls/mbedtls/library/error.c:814 | `%04X` prints a text exactly when it is a numeral of the value with at least four digits and no leading zero beyond the fourth digit |
| CText.HexExactly | main/inc/wifi_manager.h:237 | `%0X`, which has no width, prints the only numeral without leading zeros |
| CText.DecExactly | main/inc/wifi_manager.h:238-239 | `%d` prints a minus sign exactly for negative numbers and the only numeral without leading zeros |
| ErrorText.MasksSplit | esp-idf/mbedtls/mbedtls/library/error.c:807-828 | for every 32-bit code the bitwise masks 0xFF80 and ~0xFF80 split it into a sum, and the high part is bits 7 to 15 |
| ErrorText.MasksRecover | esp-idf/mbedtls/mbedtls/library/error.c:803-828 | a module code 128·a and a low code below 128, added and negated, are both recovered |
| ErrorText.HighLevelStrerr | esp-idf/mbedtls/mbedtls/library/error.c:174-183 | the table entry of the high part of the magnitude |
| ErrorText.LowLevelStrerr | esp-idf/mbedtls/mbedtls/library/error.c:535-544 | the table entry of the low part of the magnitude |
| ErrorText.Describe | esp-idf/mbedtls/mbedtls/library/error.c:813-817 | one part's text, or the unknown-code text, goes behind what is there, cut to the room left |
| ErrorText.Separate | esp-idf/mbedtls/mbedtls/library/error.c:837-848 | the separator is written only with room for one more character, and pointer and length move past it |
| ErrorText.Strerror | esp-idf/mbedtls/mbedtls/library/error.c:790-858 | the buffer holds the fitting prefix of the ideal message and zeros, and nothing outside it changes; nothing happens for length 0 |
| ErrorText.MessageExactly | esp-idf/mbedtls/mbedtls/library/error.c:803-858 | the message of every code from its two parts: both texts joined, unless one part is zero or the high part is the fatal-alert code; unknown parts are printed as numbers |
| ErrorText.ShownLongest | esp-idf/mbedtls/mbedtls/library/error.c:834-848 | what is shown is the longest prefix that fits and does not end inside the separator or right behind it |
| ErrorText.StepwiseClosedForm | esp-idf/mbedtls/mbedtls/library/error.c:834-858 | the text built step by step is the closed form: the high text alone when it fits but the separator does not, else the joined text cut to length - 1 |
| ErrorText.WholeMessageExactly | esp-idf/mbedtls/mbedtls/library/error.c:790-858 | a reader sees a prefix of the message, and all of it exactly when the buffer is longer than the message |
| ErrorText.SignIrrelevant | esp-idf/mbedtls/mbedtls/library/error.c:803-805 | the sign of the code makes no difference |
| ErrorText.UnknownCodeReadsBack | esp-idf/mbedtls/mbedtls/library/error.c:807-858 | a code without table texts, unless it is the fatal-alert code, is recovered from its message, bits above the sixteenth included |
| VersionFeatures.CheckFeature | esp-idf/mbedtls/mbedtls/library/version_features.c:814-839 | -2 exactly for the empty list, 0 exactly for "MBEDTLS_" and a listed name, else -1; no read past the sentinel or a NUL |
| VersionFeatures.SameStart | esp-idf/mbedtls/mbedtls/library/version_features.c:826 | `strncmp` with 8 is zero exactly when the prefix is there, strings shorter than it included |
| VersionFeatures.SameText | esp-idf/mbedtls/mbedtls/library/version_features.c:830-833 | `strcmp` behind the skipped prefix is zero exactly for equal texts |
| ApInfo.GetApInfo | main/inc/wifi_manager.h:224-252 | after the five appends the buffer reads as the five lines, or "" on either failure |
| ApInfo.Append | main/inc/wifi_manager.h:235 | one append at the running offset keeps what stands before it and is not truncated |
| ApInfo.TextBound | main/inc/wifi_manager.h:229-242 | the offset never passes 119, so no size underflows; the text has no NUL of its own |
| ApInfo.TextBoundAttained | main/inc/wifi_manager.h:229-242 | 119 is reached |
| ApInfo.TextExactly | main/inc/wifi_manager.h:235-239 | the five lines spelled out, with any numerals of the record's numbers that have no leading zeros |
| ApInfo.TextReadsBack | main/inc/wifi_manager.h:235-239 | a parser working from the end gets SSID, address, strength and channel back, line ends in the SSID notwithstanding |
| ApInfo.TextInjective | main/inc/wifi_manager.h:235-239 | equal descriptions mean equal access points |
| WifiScan.WifiScanAp | main/inc/wifi_manager.h:102-123 | a header with the reported count, then one entry for each of the first min(20, count) records in order |
| WifiScan.EntriesExactly | main/inc/wifi_manager.h:105-121 | every entry from its record: good exactly above -30, bad exactly from -70 down, the lower band exactly below channel 14 |
| WifiScan.LabelMonotone | main/inc/wifi_manager.h:109-115 | a stronger signal never gets a worse label |
| WifiScan.PageIndicesInBounds | spiffs/Configurationpage.html:166-173 | every index the page reads exists exactly when at most 21 networks were reported |
| WifiScan.PageDropsLastExactly | spiffs/Configurationpage.html:166-173 | the loop reads every network sent exactly when none or more than 20 were reported; with 1 to 20 it reads all entries but the last, which is the last record |
| Spiffs.FormatPath | main/inc/spiffs_manager.h:151-152 | the path is the prefixed name cut to the buffer |
| Spiffs.Volume.SaveDataToSpiffs | main/inc/spiffs_manager.h:45-75 | the volume after a save, failures and short writes included |
| Spiffs.Volume.ReadDataFromSpiffs | main/inc/spiffs_manager.h:76-103 | the caller's array after a read, failures and short reads included |
| Spiffs.Volume.ReadData | main/inc/spiffs_manager.h:104-134 | NULL exactly on failure, otherwise a NUL-terminated copy of the whole file |
| Spiffs.Volume.StoreData | main/inc/spiffs_manager.h:135-148 | the volume and the result after storing a text |
| Spiffs.Volume.DeleteFiles | main/inc/spiffs_manager.h:149-160 | only the path cut to 19 characters can disappear |
| Spiffs.SavePathAliases | main/inc/spiffs_manager.h:53 | two names share a file exactly when they agree on 21 characters |
| Spiffs.WordsReadBack | main/inc/spiffs_manager.h:65 | the little-endian bytes of a word array give every word back |
| Spiffs.WordReadsBack | main/inc/spiffs_manager.h:65 | a word is stored least significant byte first |
| Spiffs.SaveThenRead | main/inc/spiffs_manager.h:45-103 | a read after a full save fills exactly the first min(saved, asked) elements under aliasing names, and does not notice the save under others |
| Spiffs.SaveThenShortRead | main/inc/spiffs_manager.h:45-103 | after any short write or read exactly the words that came through whole are read, and the next element is spoilt exactly when a part of it came through |
| Spiffs.SaveAndReadFrame | main/inc/spiffs_manager.h:45-103 | a save changes no other path, and a failing save or read changes nothing |
| Spiffs.StoredTextReadsBack | main/inc/spiffs_manager.h:104-148 | a stored text reads back exactly when all of it was taken and it has no NUL |
| Spiffs.StoreFrame | main/inc/spiffs_manager.h:135-148 | ESP_OK exactly when the file opened; no other path changes |
| Spiffs.DeleteExactly | main/inc/spiffs_manager.h:149-160 | a path is gone afterwards exactly when it was missing before or is the removed one |
| Spiffs.DeleteAfterSave | main/inc/spiffs_manager.h:149-154 | delete removes what save wrote exactly for names of at most 11 characters, and nothing else |
| PageServer.Fgets | main/inc/config_mode.h:33 | `fgets`: up to a line end or a full buffer, NUL-terminated, nothing at the end of the file |
| PageServer.ConfigGetHandler | main/inc/config_mode.h:23-39 | the chunks sent are those of the file followed by one empty one; nothing on a missing file |
| PageServer.PiecesWellCut | main/inc/config_mode.h:32-35 | the pieces join to the file, have 1 to 255 characters, a line end only in last place, and could not be longer |
| PageServer.WellCutUnique | main/inc/config_mode.h:32-35 | there is no other such cut |
| PageServer.ChunksExactly | main/inc/config_mode.h:33-34 | every chunk is its piece up to the first NUL, for files with NULs too |
| PageServer.PageArrives | main/inc/config_mode.h:32-36 | the client receives the file exactly when it has no NUL, and then every chunk before the last is non-empty |
| Nvs.NvsFlash.InitNvs | main/inc/nvs_manager.h:7-14 | erase and retry, or abort |
| Nvs.NvsFlash.SaveDataU32InFlash | main/inc/nvs_manager.h:139-179 | store and result after a save, with every failure exit |
| Nvs.NvsFlash.SavedDataInFlash | main/inc/nvs_manager.h:65-100 | store and result after a string save that goes on after failures |
| Nvs.NvsFlash.GetSavedData32FromFlash | main/inc/nvs_manager.h:101-138 | the stored number, or 0 for every error |
| Nvs.NvsFlash.GetSavedDataFromFlash | main/inc/nvs_manager.h:15-64 | the stored string, or NULL |
| Nvs.InitExactly | main/inc/nvs_manager.h:7-14 | initialising aborts exactly when an erase is asked for and fails, and empties the storage exactly when it succeeds |
| Nvs.SavedU32Exactly | main/inc/nvs_manager.h:139-179 | from the answers alone: the result is the first failure, so ESP_OK exactly when none failed; and when a reader then sees the number |
| Nvs.SavedStrOutcome | main/inc/nvs_manager.h:65-100 | from the answers alone: what a string save returns, and when a reader then sees the text |
| Nvs.GotU32Exactly | main/inc/nvs_manager.h:101-138 | from the answers alone: an abort only for a failing erase, the stored number if nothing failed, and 0 in every other case, a missing key included |
| Nvs.CommitExactly | main/inc/nvs_manager.h:168-173 | which values a complete or interrupted commit makes durable |
| Nvs.RestartExactly | main/inc/nvs_manager.h:139-179 | what a restart leaves under every key |
| Nvs.SavedU32Survives | main/inc/nvs_manager.h:139-179 | ESP_OK means durable: the value is read back before and after any restart |
| Nvs.SavedU32Frame | main/inc/nvs_manager.h:139-179 | other keys keep their values unless the partition was erased, and then all are gone |
| Nvs.SavedStrExactly | main/inc/nvs_manager.h:65-100 | when ESP_OK of a string save means that the string is durable |
| Nvs.SavedStrCanMislead | main/inc/nvs_manager.h:86-99 | a failed set followed by a commit of nothing returns ESP_OK and stores nothing |
| Nvs.SavedStrReadsBack | main/inc/nvs_manager.h:15-100 | a string read right after a string save, whatever that returned, gives the saved text exactly when the set took effect or the text was there before |
| WifiLink.WifiManager.WifiEventHandler | main/inc/wifi_manager.h:31-86 | server, client and library calls after each event |
| WifiLink.WifiManager.StartWebserver | main/inc/config_mode.h:202-217 | the handle and both registrations on success, NULL otherwise |
| WifiLink.WifiManager.MqttAppStart | main/inc/mqtt_manager.h:26-37 | `client` is overwritten and started |
| WifiLink.ServerIsFirst | main/inc/wifi_manager.h:35-43 | the server is the first that could be started; every join before it, and none after it, attempts a start |
| WifiLink.ServerStartedOnce | main/inc/config_mode.h:202-217 | over every event sequence one start at most succeeds and both pages are registered once, right then |
| WifiLink.ServerStable | main/inc/wifi_manager.h:39-41 | once non-NULL, `server` never changes |
| WifiLink.ClientFollowsLink | main/inc/wifi_manager.h:56-81 | `client` is non-NULL exactly when status is 1 and the last link event was a connection |
| WifiLink.ClientBalance | main/inc/wifi_manager.h:56-81 | clients started minus stopped is one for a non-NULL `client` plus one for each repeated connection |
| WifiLink.OneClientExactly | main/inc/wifi_manager.h:56-81 | for every status, that balance follows `client`, and is 0 or 1, exactly when status is not 1 or no connection is reported twice in a row |
| WifiLink.CallsCounted | main/inc/wifi_manager.h:51-81 | over every event sequence: one `esp_wifi_connect` for every station start and every disconnection; in operation mode one client start for every connection, one stop for every disconnection behind a connection with a client |
| WifiLink.CallsInPlace | main/inc/wifi_manager.h:35-81 | over every event sequence: what stands right before and behind every registration, client start, stop, disconnection and deregistration |
| WifiLink.StopsLatestClient | main/inc/wifi_manager.h:60-65 | the client stopped is always the one started last and not stopped since |
| Steps.BootExactly | main/main.c:18-58 | a boot comes up exactly when no initialisation has to erase and fails; the mode from what survived and was read; what it leaves of storage and files |
| Steps.BlankBootsSetup | main/main.c:28-49 | a new device, and one whose partition is erased, comes up in SETUP |
| Steps.PowerLossKeepsFlash | main/inc/Setup_mode_button.h:37 | RAM is lost and flash stays |
| Steps.DownDoesNothing | main/main.c:18-28 | nothing happens between a restart and the next boot |
| Steps.EmptyQueueWaits | main/inc/Setup_mode_button.h:30 | with nothing to receive the task changes nothing |
| Steps.PassiveSteps | main/inc/config_mode.h:23-39 | serving the page and Wi-Fi events leave flash and queue alone |
| Steps.InterruptExactly | main/inc/Setup_mode_button.h:23-26 | the pin is queued at the end exactly when fewer than ten wait, and nothing else happens |
| Steps.GpioTurnExactly | main/inc/Setup_mode_button.h:27-40 | one save always, a second one and a restart exactly for the button, a restart on an abort, otherwise only the queue moves on |
| Steps.CommandRestartsExactly | main/inc/config_mode.h:84-168 | which commands restart the device, from state number and answers: state 7 always, states 1, 2 and 6 on an abort, no other |
| Steps.CommandFrame | main/inc/config_mode.h:84-168 | which flash contents each command can change |
| Steps.UnknownCommand | main/inc/config_mode.h:82-121 | a message that does not parse, or with another state number, does nothing |
| Steps.QueryAnswer | main/inc/config_mode.h:84-90 | state 0: the file's C text exactly when it can be opened and read in full |
| Steps.ScanAnswer | main/inc/config_mode.h:91-96 | state 1: the list, or an abort |
| Steps.StationAnswer | main/inc/config_mode.h:97-114 | state 2: "Wifi Not Connect" exactly without a connection, the empty text exactly when the access point cannot be described |
| Steps.StoreAnswer | main/inc/config_mode.h:121-134 | state 5: "ok" exactly when the file opened, which then holds what the device took |
| Steps.ResetAnswer | main/inc/config_mode.h:135-149 | state 6: the write first, answered "ok" exactly when none of its calls failed |
| Steps.ModeAnswer | main/inc/config_mode.h:150-158 | state 7: the write, and unless it aborted the string that is then visible, for every storage and every failure |
| Steps.DeleteAnswer | main/inc/config_mode.h:160-168 | state 8: exactly one path can go, the prefixed name cut to 19 characters; the earlier cut to 22 never shows |
| SetupMode.SetupAbsorbing | main/inc/Setup_mode_button.h:27-40 | in every run, after a reported successful write of ("storage", "CONFIG") every boot selects SETUP |
| SetupMode.ModeReachableExactly | main/main.c:28-57 | some run leaves SETUP, or enters OPERATION, exactly when a stored number asks for it from the beginning; blank storage does not |
| SetupMode.BootModeExactly | main/main.c:28-57 | a boot selects another mode than SETUP exactly when a non-zero number survived and was read without a fault, OPERATION exactly for 1 |
| SetupMode.StepKeepsSettled | main/inc/config_mode.h:140-157 | no step of any kind stores a number that asks for another mode |
| SetupMode.ModeLoggedExactly | main/inc/config_mode.h:150-158 | when state 7 reads back and logs "1" |
| ConfigRegister.FileRefinesRegister | main/inc/config_mode.h:84-168 | the configuration file holds what a single register would, over every run |
| ConfigRegister.QueryAnswersRegister | main/inc/config_mode.h:84-90 | over every run, every query is answered with the register's text, or fails exactly when there is none or the file cannot be opened or read in full |
| ConfigRegister.QueryReturnsLatestWrite | main/inc/config_mode.h:84-150 | over every run, a query behind the latest save or reset is answered with its text, or fails exactly when a deletion or formatting came in between or the file cannot be opened or read in full |
| ConfigRegister.QueryReturnsInitial | main/inc/config_mode.h:84-90 | before the first save or reset a query is answered from the initial file under the same conditions |
| ConfigRegister.PlainDeleteHits | main/inc/config_mode.h:160-168 | of all plain names only Config.txt deletes the configuration |
| ConfigRegister.SaveAckExactly | main/inc/config_mode.h:121-134 | a save that opens the file is answered "ok", and a later query is answered with the saved text exactly when the device took all of it, nothing removed it, and it can be read in full |
| ConfigRegister.SaveAckCanMislead | main/inc/spiffs_manager.h:143-147 | there is a save answered "ok" after which a query returns something else |
| ConfigRegister.ResetAckExactly | main/inc/config_mode.h:135-149 | a reset is answered "ok" exactly when the flash write succeeded; when the configuration is empty afterwards is a different condition |
| ConfigRegister.ResetAckCanMislead | main/inc/config_mode.h:140-143 | there is a reset answered "ok" that changes nothing |
| PageRuns.PageServedForever | main/inc/config_mode.h:23-39 | at any point of a run without formatting, a visitor for whom the page opens gets the chunks of the initial page, intact exactly when it has no NUL, and any other visitor gets 404 |
| LinkRuns.LinkInContext | main/inc/wifi_manager.h:31-86 | between restarts the link and the library calls depend on the Wi-Fi events alone |
| LinkRuns.OneServerPerBoot | main/inc/wifi_manager.h:35-43 | for every boot inside any run, in every interleaving with commands and interrupts: the server is the first that could be started since that boot, started once and with both pages registered once; every joining station tries until then and none afterwards |
| LinkRuns.CallsPerBoot | main/inc/wifi_manager.h:51-66 | for every boot inside any run the device connects once for every station start and every disconnection of that boot, and all library calls stand in their places |
| LinkRuns.NoClientAsShipped | main/main.c:12 | no run starts or stops an MQTT client |
| ButtonRuns.ServingEndsTheBoot | main/inc/Setup_mode_button.h:27-40 | with only the setup button wired, every entry taken out of the queue ends the boot |
| ButtonRuns.ServingLosesOthers | main/inc/Setup_mode_button.h:27-40 | the presses waiting behind a served one are lost; none is exactly when it was the only one |
| ButtonRuns.PressesAccountedFor | main/inc/Setup_mode_button.h:23-40 | over every run each press that found room in the queue is served, lost in a restart, or still waiting |
| ButtonRuns.OnePressPerBoot | main/inc/Setup_mode_button.h:23-40 | in every run at most one press is served per boot, however many are queued |
| ButtonRuns.PressLeadsToSetup | main/inc/Setup_mode_button.h:33-37 | a served press restarts the device, and if either save was reported successful every later boot of every continuation selects SETUP |
| Runs.AlwaysSound | main/inc/Setup_mode_button.h:101 | over every run at most ten interrupts wait, and nothing in RAM outlives a restart |
| Runs.BootIsFresh | main/main.c:13-14 | every boot of every run starts with an empty queue, no server and no client |
| Firmware.Gateway.Restart | main/inc/Setup_mode_button.h:37 | a restart loses RAM and nothing else |
| Firmware.Gateway.AppMain | main/main.c:18-58 | boot is one step of the machine |
| Firmware.Gateway.GpioIsrHandler | main/inc/Setup_mode_button.h:23-26 | the interrupt handler is one step |
| Firmware.Gateway.GpioTask | main/inc/Setup_mode_button.h:27-40 | one turn of the loop is one step |
| Firmware.Gateway.WebsocketCallback | main/inc/config_mode.h:60-174 | a command is one step |
| Firmware.Gateway.ResetConfig | main/inc/config_mode.h:135-149 | state 6 |
| Firmware.Gateway.SwitchMode | main/inc/config_mode.h:150-158 | state 7 |
| Firmware.Gateway.TryStation | main/inc/config_mode.h:97-114 | state 2 |
| Firmware.Gateway.SendConfig | main/inc/config_mode.h:84-90 | state 0 |
| Firmware.Gateway.ConfigGetHandler | main/inc/config_mode.h:23-39 | serving the page is one step |
| Firmware.Gateway.WifiEvent | main/inc/wifi_manager.h:31-86 | a Wi-Fi event is one step |

## Left out

- The internals of ESP-IDF, FreeRTOS, cJSON, lwIP and esp-mqtt: each call answers in any way its interface allows. The text `cJSON_Print` makes is an arbitrary NUL-free text.
- Preemption inside a handler: each handler call is one step. A crash or abort in the middle of library set-up is a loss of power before or after it.
- Undefined behaviour of the code: a message without the member it needs ("state", or "readpath", "ssid" and "password" in states 8 and 2), `strlen(NULL)` after a failed read of the configuration (the model only records the failure), and INT_MIN passed to `mbedtls_strerror`. The handle left uninitialised by a failed open in `saved_data_in_flash` is modelled by a set that may or may not take effect.
- A file name with '%' used as a format in state 8: what `snprintf` makes of it is an arbitrary text.
- Read errors in the middle of serving the page, and the results of the send functions, which the code ignores.
- The layout of chunks on the wire: the HTTP library adds sizes and separators; only the rule that an empty chunk ends the body is used.
- Object-name limits and capacity of SPIFFS, beyond short writes and failing opens.
- The texts of the mbed TLS tables and the feature list, the value of the fatal-alert code and the build switches: all arbitrary.
- Memory and handle leaks, delays, logging, GPIO set-up, the MQTT message handler, the start and stop functions of the Wi-Fi modes, and commented-out code.
- The HTML page, apart from the index bound of its list loop.
