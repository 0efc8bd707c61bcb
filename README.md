# btsniffer: the discovery, dedup, rollover and upload core

`btsniffer.py` is a Pwnagotchi plugin. It scans for Bluetooth devices with
`bluetoothctl` and logs each newly seen address once per file epoch as a row of
a WiGLE CSV file, stamped with a gpsd position fix. When the file reaches a
size limit, it is rolled over into an upload directory under a timestamped
name. The pending CSV files are then uploaded to WiGLE, oldest first, under a
non-blocking lock.

This project models that state machine in Dafny:

- **Sniffer.BtSniffer**, the plugin object. Its fields are:
  - the ledger `data`, mapping an address to its first-seen time;
  - the blacklist;
  - the rows of the active devices file;
  - the pending and uploaded directories;
  - the uploader lock.
  - a ghost log of the files `_upload_file` was called for, in call order, which states the order and the number of upload attempts.

  Its methods are those of the source: `on_loaded`, `write_csv_header`,
  `_load_existing_devices`, `scan`, `check_rollover`, `_upload_file` and
  `_upload_all`. Each method is proved against the specification functions
  below.
- **Ledger** holds:
  - the parse of a `bluetoothctl devices` line;
  - the scan loop as a fold over the parsed lines;
  - the bootstrap from an existing file as a fold over its rows;
  - the file-epoch invariant: every row since the last rollover is for a
    distinct address that the ledger holds with that row's first-seen time.
- **DeviceInfo** holds the three first-match lookups over `bluetoothctl info`
  output.
- **Gps** holds the "first TPV report wins" rule.
- **WigleCsv** holds the pre-header, the header and the row layout.
- **Rollover** holds the basename and the `.csv` rename rule.
- **UploadQueue** holds:
  - the listing filter and its stable sort by mtime;
  - the outcome of one upload;
  - the drain of the queue.
- **PyStr** models the Python `str` operations the code relies on:
  - `strip`, with Unicode whitespace;
  - `upper` and `lower`;
  - `in`;
  - `split(sep, maxsplit)`;
  - `replace`;
  - `int()` and `str(int)`.

Everything the plugin learns from outside is a parameter:

| Outside input | Parameter |
|---|---|
| captured command output | lines |
| `bluetoothctl info` output per address | a function, `None` when the command fails |
| gpsd session | a sequence of decoded messages |
| scan time and rollover timestamp | strings |
| file size and mtime | naturals |
| directory listing | a sequence in `os.listdir` order, `None` when it raises |
| result of each write, move, POST and delete | booleans or enumerated outcomes |

The model reproduces these behaviours of the code, which a reader might not expect:

- **A failed row write does not forget the address.** The address is recorded
  before the write. If the write fails, the address stays recorded
  (`Ledger.ScanRecordsAnnounced`) and the scan writes no row for it
  (`Ledger.ScanFailedWriteNoRow`). So no row is written for it until the next
  rollover; a restart forgets it, since the reload takes addresses only from
  rows.
- **A restart can log an address twice in one file.** The scan writes any
  address its parse yields, including an empty one (`Device  X` gives `""`,
  `Ledger.ParseDoubledSpace`), one reading `MAC`, and one that keeps a
  leading tab. The reload skips the first two and strips the third
  (`Ledger.LoadRowsKeys`), so after a restart such an address counts as new
  and gets a second row in the same file. A file without the `MAC` header,
  which the scan starts when writing the header at rollover failed, reloads
  as nothing (`Ledger.BootstrapKeys`), so every address in it is logged again
  after a restart. The file is recovered as an epoch
  only when all its addresses are already normalised
  (`Ledger.BootstrapRecoversEpoch`).
- **A bootstrap that raises empties the ledger.** It does not skip the bad
  rows. A file without a header leaves the ledger as it was
  (`Ledger.Bootstrap`).
- **An accepted upload whose move fails still reports success.** The file
  stays pending and is uploaded again on the next drain
  (`UploadQueue.UploadMoveFails`).
- **A `makedirs` failure loses an accepted upload's success.** When creating
  the uploaded directory raises after WiGLE accepted the file,
  `_upload_file` returns False.

## Model

| member | source | states |
|---|---|---|
| PyStr.Split | btsniffer.py:278 | `str.split(sep, maxsplit)` gives at most `maxsplit + 1` pieces, empty ones kept; no piece but the last holds a separator, and the last holds one only when all cuts were used; joining the pieces with the separator gives back the input |
| PyStr.SplitStep | btsniffer.py:278 | splitting `p + sep + t` with `maxsplit > 0` and no separator in `p` gives `p` followed by the split of `t` with one split fewer |
| PyStr.StripOfPadded | btsniffer.py:283 | `strip` removes exactly the whitespace around a core that starts and ends with non-whitespace |
| PyStr.StripIdempotent | btsniffer.py:188 | `strip` leaves no whitespace at either end, and stripping twice is stripping once |
| PyStr.StripOfTrimmed | btsniffer.py:188 | stripping text that starts and ends with non-whitespace changes nothing |
| PyStr.Upper | btsniffer.py:73 | `upper` keeps the length and upper-cases each character on its own |
| PyStr.Lower | btsniffer.py:402 | `lower` keeps the length and lower-cases each character on its own |
| PyStr.UpperKeepsTrimmed | btsniffer.py:188 | upper-casing stripped text leaves it stripped |
| PyStr.UpperIdempotent | btsniffer.py:73 | upper-casing twice is upper-casing once, so an upper-cased blacklist is already normal |
| PyStr.ContainsAt | btsniffer.py:275 | `sub in s` holds exactly when `sub` occurs at some position of `s` |
| PyStr.ReplaceAll | btsniffer.py:376 | `str.replace` leaves a string without the pattern unchanged |
| PyStr.ReplaceAtStart | btsniffer.py:376 | an occurrence at the start is replaced and the scan resumes after it |
| PyStr.ReplaceAfterFree | btsniffer.py:376 | a prefix in which no occurrence starts is copied and the rest is replaced on its own |
| PyStr.ParseIntOfString | btsniffer.py:347 | `int()` reads back every integer in the form `str()` prints it |
| PyStr.IntToStringTrimmed | btsniffer.py:347 | `str()` of an integer has no whitespace at either end |
| DeviceInfo.ValueAfterColon | btsniffer.py:337 | `line.split(":", 1)[1].strip()` raises exactly when the line has no colon, and otherwise is the stripped text after the first colon |
| DeviceInfo.ManufacturerIn | btsniffer.py:335-340 | the result is `''` or the value after the colon of some line containing `Manufacturer` |
| DeviceInfo.Manufacturer | btsniffer.py:332-340 | when the info command fails the result is `''` |
| DeviceInfo.ManufacturerAt | btsniffer.py:335-337 | the first line containing `Manufacturer` decides the result: its value, or `''` when it has no colon |
| DeviceInfo.ManufacturerNone | btsniffer.py:332-340 | without a manufacturer line the result is `''` |
| DeviceInfo.RssiValue | btsniffer.py:347 | a line without a colon reads as 0, as the `IndexError` is caught |
| DeviceInfo.RssiIn | btsniffer.py:345-350 | the result is 0 or the value read from some line containing `RSSI` |
| DeviceInfo.Rssi | btsniffer.py:342-350 | when the info command fails the result is 0 |
| DeviceInfo.RssiAt | btsniffer.py:345-347 | the first line containing `RSSI` decides the result: its value as an integer, or 0 when it has no colon or is not an integer |
| DeviceInfo.RssiNone | btsniffer.py:342-350 | without an RSSI line the result is 0 |
| DeviceInfo.RssiValueOf | btsniffer.py:347 | a line `key: n` with any surrounding whitespace reads back as `n` |
| DeviceInfo.DeviceTypeIn | btsniffer.py:355-362 | the loop's result is always `BT` or `BLE` |
| DeviceInfo.DeviceType | btsniffer.py:352-362 | the type is always `BT` or `BLE`, and `BT` when the info command fails |
| DeviceInfo.DeviceTypeAt | btsniffer.py:355-359 | the first type line that has no colon or names LE decides: `BLE` exactly when it names LE |
| DeviceInfo.DeviceTypeNone | btsniffer.py:355-362 | when every type line has a colon and a value without LE, the type is `BT` |
| DeviceInfo.TypeLineWithoutColon | btsniffer.py:356-362 | a type line without a colon gives `BT`, even when a later line says LE |
| Gps.FixOf | btsniffer.py:200-242 | the fix is all zeros or the fix of some TPV report of the session |
| Gps.FixOfFirstTpv | btsniffer.py:219-231 | the first TPV report of the session supplies the fix; undecodable lines and other classes before it are skipped |
| Gps.FixOfNoTpv | btsniffer.py:232-242 | without a TPV report the fix is all zeros, formatted as the row prints it |
| Gps.FixOfIgnoresLater | btsniffer.py:223-225 | messages after the first TPV report have no effect |
| WigleCsv.HeaderColumns | btsniffer.py:151-155 | the header has 14 columns |
| WigleCsv.DeviceRow | btsniffer.py:304-319 | a device row has as many cells as the header, the address first and the first-seen time fourth |
| WigleCsv.DeviceRowCells | btsniffer.py:304-319 | the cells of a device row in header order: address, name, `Misc [<type>]`, first-seen time, `0`, `0`, RSSI, latitude, longitude, altitude, accuracy, `''`, manufacturer, type |
| WigleCsv.DeviceRowIsNotHeader | btsniffer.py:304-319 | a device row is neither the header nor the pre-header, even for an address reading `MAC` |
| WigleCsv.Body | btsniffer.py:145-160 | a file starting with the pre-header and header is those two rows followed by its body; any other file is all body |
| WigleCsv.BodyAppend | btsniffer.py:302-304 | appending a device row to the file appends it to the body |
| Ledger.DeviceOfPieces | btsniffer.py:279-283 | the pieces give a device exactly when there are at least two of them |
| Ledger.ParseDeviceLine | btsniffer.py:275-276 | a line without `Device ` gives no device |
| Ledger.ParseNeedsSpace | btsniffer.py:278-280 | a line with `Device ` is dropped exactly when its stripped form holds no space |
| Ledger.ParseNamedDevice | btsniffer.py:278-283 | a line `Device <mac> <pad><name>` with surrounding whitespace, and any whitespace `pad` between the MAC and the name, yields the upper-cased MAC and the name with the padding stripped |
| Ledger.ParseBareDevice | btsniffer.py:278-283 | a line `Device <mac>` yields the upper-cased MAC and an empty name |
| Ledger.ParseDoubledSpace | btsniffer.py:278-283 | `Device  X` splits into an empty MAC and the name `X`, as `split(" ", 2)` keeps empty pieces |
| Ledger.ScanDevice | btsniffer.py:285-322 | one line appends at most one row behind the old ones, the count written grows by the rows appended, and every ledger entry is kept |
| Ledger.ScanDevices | btsniffer.py:274-322 | the loop appends at most one row per line and keeps the old rows in front |
| Ledger.ScanLines | btsniffer.py:273-322 | a scan of the captured lines appends at most one row per line and keeps the old rows in front |
| Ledger.ScanDeviceWrites | btsniffer.py:289-304 | a line naming a new, non-blacklisted address whose write succeeds appends exactly that address's row, whose info (`InfoOf`) comes from the one info output for the address |
| Ledger.ScanLedgerGrows | btsniffer.py:289-294 | during a scan the ledger only grows: every existing entry keeps its first-seen time |
| Ledger.ScanNewEntries | btsniffer.py:285-294 | every address a scan adds carries the scan time, is not blacklisted and was announced by some line |
| Ledger.ScanRecordsAnnounced | btsniffer.py:289-294 | every announced address that is not blacklisted is in the ledger after the scan, whether or not its row was written |
| Ledger.ScanAppendsRows | btsniffer.py:301-322 | the old rows stay in front; each new row has 14 cells and is for an address new to the ledger, now recorded with the scan time; no two new rows share an address; the count written is the number of new rows |
| Ledger.ScanWritesFirstAnnouncement | btsniffer.py:285-319 | an announced address, not blacklisted and not known, whose write succeeds gets among the new rows the row built from the name of its first announcing line, the scan time, the fix and its info |
| Ledger.ScanWritesLastAnnouncement | btsniffer.py:289-304 | an address first announced by the last line, new and not blacklisted, with a successful write, gets its row from that line |
| Ledger.ScanWritesEveryNew | btsniffer.py:285-322 | when every write succeeds, the new rows are for exactly the announced addresses that are neither blacklisted nor known, and the count written is their number |
| Ledger.ScanFailedWriteNoRow | btsniffer.py:289-322 | an address whose row write fails gets none of the rows the scan appends |
| Ledger.ScanSkipsBlacklisted | btsniffer.py:285-287 | a blacklisted address is never added to the ledger and gets no row, wherever and however often it appears |
| Ledger.ScanSkipsKnown | btsniffer.py:289-291 | an address already in the ledger keeps its entry and gets no row |
| Ledger.ScanDeviceKeepsEpoch | btsniffer.py:289-319 | one iteration of the scan loop keeps the epoch invariant |
| Ledger.ScanKeepsEpoch | btsniffer.py:289-322 | a scan keeps the epoch invariant, so no two rows since the last rollover share an address |
| Ledger.EpochOfFreshFile | btsniffer.py:145-160 | a file holding only the header rows, or no file, satisfies the epoch invariant for any ledger |
| Ledger.NormalizeMacIdempotent | btsniffer.py:188 | `row[0].strip().upper()` is stripped and upper-case, so normalising it again changes nothing |
| Ledger.Bootstrap | btsniffer.py:164-197 | a file that cannot be read empties the ledger; a readable one keeps every existing entry with its first-seen time |
| Ledger.RecordAllKeys | btsniffer.py:186-193 | after loading with `RecordAll`, the addresses are the old ones plus the sighted ones, and nothing else |
| Ledger.RecordAllFirst | btsniffer.py:191-193 | in `RecordAll`, an address new to the ledger takes the first-seen time of its first sighting; later sightings are ignored |
| Ledger.LoadRowsKeys | btsniffer.py:186-193 | after loading rows with `LoadRows`, the addresses are the old ones plus the normalised first cells of the data rows (non-empty, not `MAC`), and nothing else |
| Ledger.LoadRowsFirst | btsniffer.py:189-193 | when a MAC repeats, the first data row naming it supplies `row[3]`, or the current time for a short row |
| Ledger.BootstrapKeys | btsniffer.py:176-193 | the bootstrap keeps the existing entries; with a header row starting `MAC` (`HasHeader`) after an optional `WigleWifi` line (`AfterPreHeader`) it adds exactly the data rows' addresses; without one it changes nothing |
| Ledger.ReadBackHeaderRows | btsniffer.py:176-183 | the header rows this program writes are recognised on reading back, and the rows after them are the data rows |
| Ledger.BootstrapRecoversEpoch | btsniffer.py:164-193 | reloading a file this program wrote, whose every address is already normalised (stripped, upper-case, neither empty nor `MAC`), recovers exactly the addresses of its rows with their first-seen times, and the file satisfies the epoch invariant for the reloaded ledger |
| Ledger.NormalizeBlacklist | btsniffer.py:71-73 | the normalised blacklist has the same length, and each entry is the upper-cased configured entry |
| Ledger.BlacklistMatchesAnyCase | btsniffer.py:73 | a configured entry matches a scanned address that differs from it only in letter case |
| UploadQueue.Candidates | btsniffer.py:401-402 | a name is kept exactly when it is listed, is a regular file and its lower-cased name ends in `.csv` (`IsCsvName`); kept names stay distinct |
| UploadQueue.SortByMtime | btsniffer.py:403 | the sort orders by ascending mtime, keeps the same names as a multiset, and keeps them distinct |
| UploadQueue.ListCsvFiles | btsniffer.py:398-406 | the result is regular files ascending by mtime, a name is in it exactly when it is listed, regular and a `.csv` name, and a listing that raised gives `[]` |
| UploadQueue.ListCsvFilesSpec | btsniffer.py:398-406 | the listing holds exactly the listed regular `.csv` files, oldest first, each once when listed once; a listing that raised gives `[]` |
| UploadQueue.ListCsvFilesOfFullListing | btsniffer.py:401-402 | with a complete directory listing the result holds every regular `.csv` file of the directory and nothing else |
| UploadQueue.Upload | btsniffer.py:408-462 | the result is True exactly when the credentials are set, the file is regular, the response is 200 with a truthy `success`, and creating the uploaded directory succeeds; on False nothing changes; the file leaves pending only after success with a successful move; other files are untouched |
| UploadQueue.UploadAcceptedDisposes | btsniffer.py:428-451 | after an accepted upload whose move succeeds, the file has left pending, and it is in the uploaded directory, with its contents, exactly when `remove_on_success` is off or the `os.remove` raised |
| UploadQueue.UploadMoveFails | btsniffer.py:440-451 | an accepted upload whose move fails returns True and leaves both directories as they were |
| UploadQueue.UploadKeepsOthers | btsniffer.py:424-451 | uploading one file leaves every other file's entries as they were |
| UploadQueue.Drain | btsniffer.py:464-479 | the drain never adds a pending file and never changes the contents of one left pending |
| UploadQueue.DrainUntouched | btsniffer.py:476-477 | a file the drain does not list is not touched |
| UploadQueue.DrainDisposesOnlyAccepted | btsniffer.py:464-479 | a pending file leaves pending only if it was listed, the credentials were set and WiGLE accepted it |
| Rollover.Basename | btsniffer.py:376 | `os.path.basename` is the slash-free suffix that follows the last `/` |
| Rollover.BasenameOfJoin | btsniffer.py:376 | the basename of `dir/name` is `name` |
| Rollover.RolledName | btsniffer.py:376 | a basename without `.csv` keeps its name |
| Rollover.RolledNameOfCsv | btsniffer.py:375-377 | `<stem>.csv` is renamed `<stem>_<ts>.csv` when the stem holds no `.csv` |
| Rollover.RolledNameReplacesEvery | btsniffer.py:376 | every `.csv` is replaced: `<stem>.csv.csv` becomes `<stem>_<ts>.csv_<ts>.csv` |
| Rollover.RolledNameKeepsUpperCase | btsniffer.py:376-379 | the replacement is case-sensitive: `<stem>.CSV` keeps its name whatever the timestamp, so successive rollovers share one destination |
| Rollover.RolledNameOfPath | btsniffer.py:372-377 | the devices file `dir/<stem>.csv` is rolled over as `<stem>_<ts>.csv` whatever its directory |
| Rollover.RolledNamesDistinct | btsniffer.py:375-377 | distinct timestamps give distinct names for a `.csv` basename |
| Rollover.RolledNameIsCsv | btsniffer.py:376-377 | the rolled name of a `.csv` basename is a name the upload listing accepts |
| Sniffer.BtSniffer.constructor | btsniffer.py:61-65 | the ledger starts empty and the lock free |
| Sniffer.BtSniffer.OnLoaded | btsniffer.py:68-95 | the blacklist is upper-cased; a missing file is started with the header rows (when writable) and the ledger left alone; an existing file is bootstrapped |
| Sniffer.BtSniffer.WriteCsvHeader | btsniffer.py:145-162 | a writable file afterwards holds exactly the pre-header and header; otherwise it is unchanged |
| Sniffer.BtSniffer.LoadExistingDevices | btsniffer.py:164-197 | the loop leaves the ledger as `Ledger.Bootstrap` specifies, `{}` when the file cannot be read |
| Sniffer.BtSniffer.LoadRow | btsniffer.py:187-193 | one row enters its normalised address with `row[3]` as first-seen time (the current time for a short row), unless the row is empty, its address is empty or `MAC`, or the address is already known |
| Sniffer.BtSniffer.Ingest | btsniffer.py:273-322 | the loop leaves the ledger, the file and the count written as the scan fold over the parsed lines specifies |
| Sniffer.BtSniffer.IngestDevice | btsniffer.py:285-322 | one iteration skips a blacklisted or known address, and otherwise records it before appending its row when the write succeeds |
| Sniffer.BtSniffer.CheckRollover | btsniffer.py:365-386 | a rollover happens exactly when the file exists, has reached the size limit and the move succeeds; then the file is pending under its rolled name, the active file holds only the header rows (or is absent when the header fails), the ledger is empty and the epoch invariant holds; otherwise nothing changes |
| Sniffer.BtSniffer.Scan | btsniffer.py:245-329 | a scan is the fold over the lines followed by the rollover check; blacklisted addresses are never recorded; the epoch invariant is kept |
| Sniffer.BtSniffer.UploadFile | btsniffer.py:408-462 | the result and the new directories are those `UploadQueue.Upload` specifies, and the call is appended to the log of `_upload_file` calls |
| Sniffer.BtSniffer.UploadAll | btsniffer.py:464-479 | with the lock held, nothing happens and no upload is attempted; otherwise `_upload_file` is called exactly for the listed files, in the listed (oldest-first) order, each once when the directory listing has no repeated name, the lock is released, and a file leaves pending only after WiGLE accepted it |
| Sniffer.BtSniffer.UploadEach | btsniffer.py:476-478 | the `_upload_file` calls made are exactly the given files, in the given order, and the directories end as the drain over that list specifies |

## Left out

- Starting and stopping the scan through `bluetoothctl`, and the `time.sleep` calls: their output is given as lines, and the delays change no state.
- `output.strip().splitlines()` and `out.splitlines()`: the captured lines are given as a sequence.
- The gpsd socket session: its deadline, its buffering, the JSON decoding, the `altMSL`/`alt` and `epx`/`eps` fallbacks, and the float formatting. The session is a sequence of decoded messages, and a fix carries its four coordinates already formatted as strings.
- The three `bluetoothctl info` runs per address: one output per address feeds all three lookups.
- Case mapping is ASCII only, and `int()` accepts only ASCII digits. Python maps every Unicode letter and digit.
- The `csv` module's quoting, escaping and line endings: a row is a sequence of cells. The `WigleWifi` check is made on the first cell of the first row; the source makes it on the first raw line.
- `datetime` formatting and the clocks: the scan time, the bootstrap fallback time and the rollover timestamp are given strings.
- Ledger.Bootstrap: every short row of one bootstrap gets the same given fallback time, while the source calls `utcnow()` again for each short row, so two short rows may get different times there.
- File sizes and mtimes are given naturals. The size is not derived from the rows.
- `os.makedirs` at load time and in `check_rollover` is left out. Failing to create the upload directory is folded into the rollover's single move outcome.
- `shutil.move` onto an existing directory is left out, so the model does not move a file into such a directory.
- `write_csv_header` failing after the file was opened: the model leaves the file as it was instead of truncated.
- The WiGLE HTTP exchange and `_check_internet`: the response and the disposal are enumerated outcomes.
- Threading: `on_internet_available` and the periodic trigger in `on_ui_update` start `_upload_all` on a thread. The lock is a flag; concurrent drains are not modelled, and neither is the check-then-acquire race between `locked()` and `with`.
- The UI: `on_ui_setup`, the display calls in `on_ui_update` and `scan`, `bt_sniff_info`, and the logging.
- `on_loaded` copying the WiGLE credentials and paths out of the options: the configuration is given.
- `on_loaded` replacing the blacklist with `[]` when upper-casing it raises is not modelled, since the entries are strings here and upper-casing cannot fail.
- UploadQueue.SortByMtime: stability (equal mtimes keep listing order) is built into the insertion but not stated as a property.
- PyStr.Split: only split-then-join is proved, not that the pieces are unique for a given input.
- PyStr.ReplaceAll: stated only for a string without the pattern; the other cases are proved through `ReplaceAtStart` and `ReplaceAfterFree`.
