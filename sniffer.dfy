/**
 * The plugin object: the ledger of the addresses logged in the current file
 * epoch, the blacklist, the active devices file, the pending and uploaded
 * directories and the uploader lock, with the operations that change them.
 * Everything the plugin learns from the outside world (command output, the
 * gpsd messages, clocks, file sizes and mtimes, whether a file operation or
 * an upload succeeds) is passed in.
 */
module Sniffer {
  import opened Wrappers
  import opened Gps
  import opened WigleCsv
  import opened Ledger
  import opened UploadQueue
  import opened Rollover

  /** What `check_rollover` learns from outside: the size of the devices file,
      the `%Y%m%d_%H%M%S` timestamp, the file's mtime, whether creating the
      upload directory and moving the file there succeed, and whether the new
      header can be written. */
  datatype RolloverEnv = RolloverEnv(size: nat, ts: string, mtime: nat, moveOk: bool, headerOk: bool)

  class BtSniffer {
    /** `options['devices_file']`. */
    const devicesFile: string
    /** `options['file_size']`, the rollover threshold in bytes. */
    const fileSize: nat
    /** The WiGLE credentials and `remove_on_success`. */
    const config: UploadConfig

    var blacklist: seq<string>
    /** `self.data`: address to first-seen time. */
    var data: Ledger
    /** The rows of the devices file, `None` while it does not exist. */
    var active: Option<seq<Row>>
    /** The upload directory, `uploader_options['path']`. */
    var pending: Dir
    /** `uploader_options['uploaded_path']`. */
    var uploaded: Dir
    /** `_uploader_lock`, held or not. */
    var locked: bool
    /** The files `_upload_file` has been called for, in call order. */
    ghost var uploadLog: seq<string>

    constructor(devicesFile: string, fileSize: nat, config: UploadConfig, blacklist: seq<string>,
                active: Option<seq<Row>>, pending: Dir, uploaded: Dir)
      ensures this.devicesFile == devicesFile && this.fileSize == fileSize && this.config == config
      ensures this.blacklist == blacklist && this.active == active
      ensures this.pending == pending && this.uploaded == uploaded
      ensures data == map[] && !locked && uploadLog == []
    {
      this.devicesFile := devicesFile;
      this.fileSize := fileSize;
      this.config := config;
      this.blacklist := blacklist;
      this.active := active;
      this.pending := pending;
      this.uploaded := uploaded;
      data := map[];
      locked := false;
      uploadLog := [];
    }

    /** The name the devices file gets in the upload directory. */
    function RolledOverName(ts: string): string {
      RolledName(Basename(devicesFile), ts)
    }

    /** `check_rollover` moves the file exactly when it exists, has reached
        the size limit and the move succeeds. */
    predicate RollsOver(file: Option<seq<Row>>, roll: RolloverEnv) {
      file.Some? && roll.size >= fileSize && roll.moveOk
    }

    // ---------------- Loading ----------------

    /** `on_loaded`: the blacklist is upper-cased, then a missing devices file
        is started with a header and an existing one is loaded into the ledger. */
    method OnLoaded(headerOk: bool, readOk: bool, now: string)
      modifies this`blacklist, this`data, this`active
      ensures blacklist == NormalizeBlacklist(old(blacklist))
      ensures old(active).None? ==>
        active == (if headerOk then Some(HeaderRows) else None) && data == old(data)
      ensures old(active).Some? ==>
        active == old(active) && data == Bootstrap(old(data), if readOk then old(active) else None, now)
    {
      blacklist := NormalizeBlacklist(blacklist);
      if active.None? {
        WriteCsvHeader(headerOk);
      } else {
        LoadExistingDevices(readOk, now);
      }
    }

    /** `write_csv_header`: when the file can be written it then holds exactly
        the pre-header and header; otherwise it is left as it was. */
    method WriteCsvHeader(ok: bool)
      modifies this`active
      ensures active == if ok then Some(HeaderRows) else old(active)
    {
      if ok {
        active := Some(HeaderRows);
      }
    }

    /** `_load_existing_devices`. `readOk` is false when opening or reading
        the file raises. */
    method LoadExistingDevices(readOk: bool, now: string)
      modifies this`data
      ensures data == Bootstrap(old(data), if readOk then active else None, now)
    {
      if !readOk || active.None? {
        data := map[];
        return;
      }
      var rows := active.value;
      if |rows| > 0 && IsPreHeaderRow(rows[0]) {
        rows := rows[1..];
      }
      if !HasHeader(rows) {
        return;
      }
      var body := rows[1..];
      ghost var ss := Sightings(body, now);
      var i := 0;
      while i < |body|
        invariant 0 <= i <= |body|
        invariant data == RecordAll(old(data), ss[..i])
      {
        LoadRow(body[i], now);
        assert ss[..i + 1][..i] == ss[..i];
        i := i + 1;
      }
      assert ss[..|body|] == ss;
    }

    /** One iteration of that loop: the normalised address of a data row is
        entered with the row's first-seen time unless it is already known. */
    method LoadRow(row: Row, now: string)
      modifies this`data
      ensures data == Record(old(data), SightingOf(row, now))
    {
      if |row| > 0 {
        var mac := NormalizeMac(row[0]);
        if mac != "" && mac != "MAC" && mac !in data {
          data := data[mac := FirstSeenOf(row, now)];
        }
      }
    }

    // ---------------- Scanning ----------------

    /** The loop of `scan` over the captured lines of `bluetoothctl devices`. */
    method Ingest(lines: seq<string>, env: ScanEnv) returns (written: nat)
      modifies this`data, this`active
      ensures ScanState(data, active, written) == ScanLines(blacklist, env, ScanState(old(data), old(active), 0), lines)
    {
      written := 0;
      ghost var ds := ParseLines(lines);
      var i := 0;
      while i < |lines|
        invariant 0 <= i <= |lines|
        invariant ScanState(data, active, written)
               == ScanDevices(blacklist, env, ScanState(old(data), old(active), 0), ds[..i])
      {
        var d := ParseDeviceLine(lines[i]);
        written := IngestDevice(d, env, written);
        assert ds[..i + 1][..i] == ds[..i];
        i := i + 1;
      }
      assert ds[..|lines|] == ds;
    }

    /** One iteration of that loop, once the line is parsed: a blacklisted or
        known address is skipped; a new one is recorded before its row is
        appended. */
    method IngestDevice(d: Option<Device>, env: ScanEnv, written: nat) returns (written': nat)
      modifies this`data, this`active
      ensures ScanState(data, active, written')
           == ScanDevice(blacklist, env, ScanState(old(data), old(active), written), d)
    {
      written' := written;
      if d.Some? && d.value.mac !in blacklist && d.value.mac !in data {
        var mac := d.value.mac;
        data := data[mac := env.scanTime];
        if env.writeOk(mac) {
          var row := DeviceRow(mac, d.value.name, env.scanTime, env.fix, InfoOf(env, mac));
          active := Some(Rows(active) + [row]);
          written' := written + 1;
        }
      }
    }

    /** `check_rollover`: a full devices file moves to the upload directory
        under its timestamped name, a new header is written and the ledger is
        cleared; otherwise nothing changes. */
    method CheckRollover(roll: RolloverEnv)
      modifies this`data, this`active, this`pending
      ensures RollsOver(old(active), roll) ==>
        && pending == old(pending)[RolledOverName(roll.ts) := RegularFile(roll.mtime, old(active).value)]
        && active == (if roll.headerOk then Some(HeaderRows) else None)
        && data == map[]
      ensures !RollsOver(old(active), roll) ==>
        data == old(data) && active == old(active) && pending == old(pending)
      ensures RollsOver(old(active), roll) ==> EpochFile(active, data)
    {
      if active.Some? && roll.size >= fileSize && roll.moveOk {
        pending := pending[RolledOverName(roll.ts) := RegularFile(roll.mtime, active.value)];
        active := None;
        WriteCsvHeader(roll.headerOk);
        data := map[];
        EpochOfFreshFile(data);
      }
    }

    /** `scan`: the fix is taken from gpsd, the captured lines are ingested and
        the rollover check runs. Blacklisted addresses are never recorded, the
        rows written since the last rollover keep distinct addresses, and a
        rollover leaves the ledger empty. */
    method Scan(lines: seq<string>, msgs: seq<Message>, scanTime: string,
                info: string -> Option<seq<string>>, writeOk: string -> bool, roll: RolloverEnv)
      returns (written: nat)
      modifies this`data, this`active, this`pending
      ensures var r := ScanLines(blacklist, ScanEnv(scanTime, FixOf(msgs), info, writeOk),
                                 ScanState(old(data), old(active), 0), lines);
        && written == r.written
        && (RollsOver(r.file, roll) ==>
              && pending == old(pending)[RolledOverName(roll.ts) := RegularFile(roll.mtime, r.file.value)]
              && active == (if roll.headerOk then Some(HeaderRows) else None)
              && data == map[])
        && (!RollsOver(r.file, roll) ==> data == r.ledger && active == r.file && pending == old(pending))
      ensures forall k :: k in blacklist && k !in old(data) ==> k !in data
      ensures EpochFile(old(active), old(data)) ==> EpochFile(active, data)
    {
      var env := ScanEnv(scanTime, FixOf(msgs), info, writeOk);
      ghost var st := ScanState(data, active, 0);
      written := Ingest(lines, env);
      ghost var ds := ParseLines(lines);
      forall k | k in blacklist && k !in st.ledger ensures k !in data {
        ScanSkipsBlacklisted(blacklist, env, st, ds, k);
      }
      if EpochFile(st.file, st.ledger) {
        ScanKeepsEpoch(blacklist, env, st, ds);
      }
      CheckRollover(roll);
    }

    // ---------------- Uploading ----------------

    /** `_upload_file`, with the outcome of the POST and of the moves given. */
    method UploadFile(name: string, a: Attempt) returns (ok: bool)
      modifies this`pending, this`uploaded, this`uploadLog
      ensures var res := Upload(config, Dirs(old(pending), old(uploaded)), name, a);
        ok == res.ok && Dirs(pending, uploaded) == res.dirs
      ensures uploadLog == old(uploadLog) + [name]
    {
      uploadLog := uploadLog + [name];
      if config.user == "" || config.token == "" {
        return false;
      }
      if !IsRegular(pending, name) || !Accepted(a.response) || a.disposal == MakedirsFails {
        return false;
      }
      if a.disposal == MoveFails {
        return true;
      }
      var entry := pending[name];
      pending := pending - {name};
      uploaded := uploaded[name := entry];
      if config.removeOnSuccess && a.disposal == Disposed {
        uploaded := uploaded - {name};
      }
      return true;
    }

    /** `_upload_all`: nothing happens while the lock is held; otherwise the
        pending CSV files are listed, oldest first, and each is uploaded once,
        in that order, under the lock. A file leaves the pending directory
        only after WiGLE accepted it. */
    method UploadAll(listing: Option<seq<string>>, outcomeOf: string -> Attempt)
      returns (attempted: seq<string>)
      modifies this`pending, this`uploaded, this`locked, this`uploadLog
      ensures uploadLog == old(uploadLog) + attempted
      ensures old(locked) ==>
        attempted == [] && pending == old(pending) && uploaded == old(uploaded) && locked
      ensures !old(locked) ==>
        && attempted == ListCsvFiles(listing, old(pending))
        && Dirs(pending, uploaded) == Drain(config, Dirs(old(pending), old(uploaded)), attempted, outcomeOf)
        && !locked
      ensures AllRegular(old(pending), attempted) && SortedByMtime(old(pending), attempted)
      ensures listing.Some? && Distinct(listing.value) ==> Distinct(attempted)
      ensures forall n :: n in old(pending) && n !in pending ==>
        n in attempted && HasCredentials(config) && Accepted(outcomeOf(n).response)
    {
      if locked {
        assert uploadLog == uploadLog + [];
        return [];
      }
      locked := true;
      ghost var start := Dirs(pending, uploaded);
      var files := ListCsvFiles(listing, pending);
      ListCsvFilesSpec(listing, pending);
      UploadEach(files, outcomeOf);
      attempted := files;
      forall n | n in start.pending && n !in pending
        ensures n in attempted && HasCredentials(config) && Accepted(outcomeOf(n).response)
      {
        DrainDisposesOnlyAccepted(config, start, files, outcomeOf, n);
      }
      locked := false;
    }

    /** The loop of `_upload_all`: each file is uploaded once, in order. */
    method UploadEach(files: seq<string>, outcomeOf: string -> Attempt)
      modifies this`pending, this`uploaded, this`uploadLog
      ensures Dirs(pending, uploaded) == Drain(config, Dirs(old(pending), old(uploaded)), files, outcomeOf)
      ensures uploadLog == old(uploadLog) + files
    {
      var i := 0;
      while i < |files|
        invariant 0 <= i <= |files|
        invariant Dirs(pending, uploaded) == Drain(config, Dirs(old(pending), old(uploaded)), files[..i], outcomeOf)
        invariant uploadLog == old(uploadLog) + files[..i]
      {
        var _ := UploadFile(files[i], outcomeOf(files[i]));
        assert files[..i + 1][..i] == files[..i];
        i := i + 1;
      }
      assert files[..|files|] == files;
    }
  }
}
