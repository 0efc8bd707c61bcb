/**
 * The ledger of devices already logged in the current file (`self.data`, an
 * upper-cased MAC mapped to its first-seen time) and the two ways it is
 * filled: a scan of `bluetoothctl devices` output, which records each new
 * device and appends its row, and the bootstrap from an existing devices
 * file at start-up.
 */
module Ledger {
  import opened Wrappers
  import opened PyStr
  import opened Gps
  import opened WigleCsv
  import opened DeviceInfo

  /** MAC address to first-seen timestamp. */
  type Ledger = map<string, string>

  // ---------------- One line of `bluetoothctl devices` ----------------

  datatype Device = Device(mac: string, name: string)

  /** The pieces of a stripped line: fewer than two are dropped, the second
      upper-cased is the MAC and the stripped third, if any, the name. */
  function DeviceOfPieces(parts: seq<string>): (d: Option<Device>)
    ensures d.Some? <==> |parts| >= 2
  {
    if |parts| < 2 then None
    else Some(Device(Upper(parts[1]), if |parts| > 2 then Strip(parts[2]) else ""))
  }

  /** The line filter and parse of `scan`: lines without `"Device "` are
      dropped; the stripped line is split on single spaces at most twice. */
  function ParseDeviceLine(line: string): (d: Option<Device>)
    ensures !Contains(line, "Device ") ==> d.None?
  {
    if !Contains(line, "Device ") then None
    else DeviceOfPieces(Split(Strip(line), ' ', 2))
  }

  /** Once the line is known to hold `"Device "`, only its stripped text matters. */
  lemma ParseStripped(line: string, core: string)
    requires Contains(line, "Device ") && Strip(line) == core
    ensures ParseDeviceLine(line) == DeviceOfPieces(Split(core, ' ', 2))
  {
  }

  /** Splitting yields a second piece exactly when there is a space. */
  lemma SplitAtSpace(s: string)
    ensures |Split(s, ' ', 2)| >= 2 <==> ' ' in s
  {
    if ' ' in s {
      var i := IndexOf(s, ' ');
      assert s == s[..i] + [' '] + s[i + 1..];
      SplitStep(s[..i], s[i + 1..], ' ', 2);
    } else {
      SplitNone(s, ' ', 2);
    }
  }

  /** A line holding `"Device "` is dropped exactly when its stripped text
      has no space left to split at. */
  lemma ParseNeedsSpace(line: string)
    requires Contains(line, "Device ")
    ensures ParseDeviceLine(line).None? <==> ' ' !in Strip(line)
  {
    ParseStripped(line, Strip(line));
    SplitAtSpace(Strip(line));
  }

  predicate NoSpace(s: string) {
    forall i :: 0 <= i < |s| ==> !IsSpace(s[i])
  }

  lemma NoSpaceHasNoBlank(s: string)
    requires NoSpace(s)
    ensures ' ' !in s
  {
    assert forall i :: 0 <= i < |s| ==> s[i] != ' ';
  }

  /** The stripped text of a padded device line, and the `"Device "` it holds. */
  lemma StrippedDeviceLine(lead: string, tail: string, trail: string)
    requires AllSpace(lead) && AllSpace(trail)
    requires |tail| > 0 && !IsSpace(tail[|tail| - 1])
    ensures Strip(lead + ("Device " + tail) + trail) == "Device " + tail
    ensures Contains(lead + ("Device " + tail) + trail, "Device ")
  {
    var core := "Device " + tail;
    assert core[|core| - 1] == tail[|tail| - 1];
    StripOfPadded(lead, core, trail);
    assert StartsWith(core, "Device ");
    ContainsInfix(lead, core, trail, "Device ");
  }

  lemma SplitDeviceTail(tail: string)
    ensures Split("Device " + tail, ' ', 2) == ["Device"] + Split(tail, ' ', 1)
  {
    assert "Device " + tail == "Device" + [' '] + tail;
    SplitStep("Device", tail, ' ', 2);
  }

  lemma SplitNamed(mac: string, name: string)
    requires ' ' !in mac
    ensures Split("Device " + (mac + " " + name), ' ', 2) == ["Device", mac, name]
  {
    SplitDeviceTail(mac + " " + name);
    assert mac + " " + name == mac + [' '] + name;
    SplitStep(mac, name, ' ', 1);
    SplitNone(name, ' ', 0);
  }

  /** `Device <mac> <name>`, however it is padded, gives the upper-cased
      address and the name; whitespace between the address and the name is
      stripped off the name, and the name may itself hold spaces. */
  lemma ParseNamedDevice(lead: string, mac: string, pad: string, name: string, trail: string)
    requires AllSpace(lead) && AllSpace(pad) && AllSpace(trail)
    requires |mac| > 0 && NoSpace(mac)
    requires |name| > 0 && Trimmed(name)
    ensures ParseDeviceLine(lead + ("Device " + (mac + " " + (pad + name))) + trail) == Some(Device(Upper(mac), name))
  {
    var tail := mac + " " + (pad + name);
    assert tail[|tail| - 1] == name[|name| - 1];
    StrippedDeviceLine(lead, tail, trail);
    ParseStripped(lead + ("Device " + tail) + trail, "Device " + tail);
    NoSpaceHasNoBlank(mac);
    SplitNamed(mac, pad + name);
    DeviceOfNamed(mac, pad, name);
  }

  lemma DeviceOfNamed(mac: string, pad: string, name: string)
    requires AllSpace(pad) && Trimmed(name)
    ensures DeviceOfPieces(["Device", mac, pad + name]) == Some(Device(Upper(mac), name))
  {
    var parts := ["Device", mac, pad + name];
    assert |parts| == 3 && parts[1] == mac && parts[2] == pad + name;
    assert pad + name + [] == pad + name;
    StripOfPadded(pad, name, []);
  }

  /** `Device <mac>` with no name gives the upper-cased address and `""`. */
  lemma ParseBareDevice(lead: string, mac: string, trail: string)
    requires AllSpace(lead) && AllSpace(trail)
    requires |mac| > 0 && NoSpace(mac)
    ensures ParseDeviceLine(lead + ("Device " + mac) + trail) == Some(Device(Upper(mac), ""))
  {
    StrippedDeviceLine(lead, mac, trail);
    ParseStripped(lead + ("Device " + mac) + trail, "Device " + mac);
    SplitDeviceTail(mac);
    NoSpaceHasNoBlank(mac);
    SplitNone(mac, ' ', 1);
  }

  /** A doubled space after `Device` yields an empty MAC, which the scan then
      records like any other, and the rest of the line as the name. */
  lemma ParseDoubledSpace(lead: string, name: string, trail: string)
    requires AllSpace(lead) && AllSpace(trail)
    requires |name| > 0 && Trimmed(name)
    ensures ParseDeviceLine(lead + ("Device " + (" " + name)) + trail) == Some(Device("", name))
  {
    var tail := " " + name;
    assert tail == [] + " " + name;
    assert tail[|tail| - 1] == name[|name| - 1];
    StrippedDeviceLine(lead, tail, trail);
    ParseStripped(lead + ("Device " + tail) + trail, "Device " + tail);
    SplitNamed([], name);
    DeviceOfNamed([], [], name);
    assert [] + name == name;
    assert Upper([]) == [];
  }

  /** The parse of every captured line, in order. */
  function ParseLines(lines: seq<string>): (ds: seq<Option<Device>>)
    ensures |ds| == |lines|
    ensures forall i :: 0 <= i < |lines| ==> ds[i] == ParseDeviceLine(lines[i])
  {
    seq(|lines|, i requires 0 <= i < |lines| => ParseDeviceLine(lines[i]))
  }

  /** The parsed line names `mac`. */
  predicate Names(d: Option<Device>, mac: string) {
    d.Some? && d.value.mac == mac
  }

  predicate AnnouncedIn(ds: seq<Option<Device>>, mac: string) {
    exists j :: 0 <= j < |ds| && Names(ds[j], mac)
  }

  // ---------------- Scan ----------------

  /** What one scan is given from outside: its timestamp, the position fix,
      the output of `bluetoothctl info` for each address (`None` when the
      command fails) and whether appending the row for an address succeeds. */
  datatype ScanEnv = ScanEnv(
    scanTime: string,
    fix: Fix,
    info: string -> Option<seq<string>>,
    writeOk: string -> bool)

  /** The three lookups, all on the one info output for the address. */
  function InfoOf(env: ScanEnv, mac: string): Info {
    var out := env.info(mac);
    Info(Manufacturer(out), Rssi(out), DeviceType(out))
  }

  /** The ledger, the devices file (`None` when it does not exist) and the
      number of rows written so far. */
  datatype ScanState = ScanState(ledger: Ledger, file: Option<seq<Row>>, written: nat)

  /** The rows of a file; opening a missing file for append creates it. */
  function Rows(file: Option<seq<Row>>): seq<Row> {
    file.GetOr([])
  }

  /** One iteration of the loop in `scan`, after the line is parsed:
      blacklisted and known addresses are skipped; a new one is recorded with
      the scan time before its row is written, and stays recorded when the
      write fails. */
  function ScanDevice(blacklist: seq<string>, env: ScanEnv, st: ScanState, d: Option<Device>): (r: ScanState)
    ensures |Rows(st.file)| <= |Rows(r.file)| <= |Rows(st.file)| + 1
    ensures Rows(r.file)[..|Rows(st.file)|] == Rows(st.file)
    ensures r.written == st.written + (|Rows(r.file)| - |Rows(st.file)|)
    ensures forall k :: k in st.ledger ==> k in r.ledger && r.ledger[k] == st.ledger[k]
  {
    match d
    case None => st
    case Some(dev) =>
      if dev.mac in blacklist || dev.mac in st.ledger then st
      else
        var ledger := st.ledger[dev.mac := env.scanTime];
        if env.writeOk(dev.mac) then
          var row := DeviceRow(dev.mac, dev.name, env.scanTime, env.fix, InfoOf(env, dev.mac));
          ScanState(ledger, Some(Rows(st.file) + [row]), st.written + 1)
        else ScanState(ledger, st.file, st.written)
  }

  /** The loop of `scan` over the parsed lines, in order. */
  function ScanDevices(blacklist: seq<string>, env: ScanEnv, st: ScanState, ds: seq<Option<Device>>): (r: ScanState)
    ensures |Rows(st.file)| <= |Rows(r.file)| <= |Rows(st.file)| + |ds|
    ensures Rows(r.file)[..|Rows(st.file)|] == Rows(st.file)
    decreases |ds|
  {
    if |ds| == 0 then st
    else
      var mid := ScanDevices(blacklist, env, st, ds[..|ds| - 1]);
      var r := ScanDevice(blacklist, env, mid, ds[|ds| - 1]);
      assert Rows(r.file)[..|Rows(st.file)|] == Rows(r.file)[..|Rows(mid.file)|][..|Rows(st.file)|];
      r
  }

  /** The loop of `scan` over the captured lines. */
  function ScanLines(blacklist: seq<string>, env: ScanEnv, st: ScanState, lines: seq<string>): (r: ScanState)
    ensures |Rows(st.file)| <= |Rows(r.file)| <= |Rows(st.file)| + |lines|
    ensures Rows(r.file)[..|Rows(st.file)|] == Rows(st.file)
  {
    ScanDevices(blacklist, env, st, ParseLines(lines))
  }

  /** Entries already in the ledger are kept, each with its first-seen time. */
  lemma {:induction false} ScanLedgerGrows(blacklist: seq<string>, env: ScanEnv, st: ScanState, ds: seq<Option<Device>>)
    ensures var r := ScanDevices(blacklist, env, st, ds);
      forall k :: k in st.ledger ==> k in r.ledger && r.ledger[k] == st.ledger[k]
    decreases |ds|
  {
    if |ds| > 0 {
      ScanLedgerGrows(blacklist, env, st, ds[..|ds| - 1]);
    }
  }

  /** Every address the scan adds was announced by some line, is not
      blacklisted and carries the scan time. */
  lemma {:induction false} ScanNewEntries(blacklist: seq<string>, env: ScanEnv, st: ScanState, ds: seq<Option<Device>>)
    ensures var r := ScanDevices(blacklist, env, st, ds);
      forall k :: k in r.ledger && k !in st.ledger ==>
        r.ledger[k] == env.scanTime && k !in blacklist && AnnouncedIn(ds, k)
    decreases |ds|
  {
    if |ds| > 0 {
      var p := ds[..|ds| - 1];
      ScanNewEntries(blacklist, env, st, p);
      var mid := ScanDevices(blacklist, env, st, p);
      var r := ScanDevice(blacklist, env, mid, ds[|ds| - 1]);
      forall k | k in r.ledger && k !in st.ledger
        ensures r.ledger[k] == env.scanTime && k !in blacklist && AnnouncedIn(ds, k)
      {
        if k in mid.ledger {
          var j :| 0 <= j < |p| && Names(p[j], k);
          assert ds[j] == p[j];
        } else {
          assert Names(ds[|ds| - 1], k);
        }
      }
    }
  }

  /** Every announced address that is not blacklisted is in the ledger
      afterwards, whether or not its row could be written. */
  lemma {:induction false} ScanRecordsAnnounced(blacklist: seq<string>, env: ScanEnv, st: ScanState, ds: seq<Option<Device>>)
    ensures var r := ScanDevices(blacklist, env, st, ds);
      forall k :: AnnouncedIn(ds, k) && k !in blacklist ==> k in r.ledger
    decreases |ds|
  {
    if |ds| > 0 {
      var p := ds[..|ds| - 1];
      ScanRecordsAnnounced(blacklist, env, st, p);
      var mid := ScanDevices(blacklist, env, st, p);
      var r := ScanDevice(blacklist, env, mid, ds[|ds| - 1]);
      assert forall k :: k in mid.ledger ==> k in r.ledger;
      forall k | AnnouncedIn(ds, k) && k !in blacklist ensures k in r.ledger {
        var j :| 0 <= j < |ds| && Names(ds[j], k);
        if j < |p| {
          assert Names(p[j], k);
        }
      }
    }
  }

  /** The rows a scan writes: the old rows stay in front; each new row is
      for an address that was not in the ledger before and is in it now, with
      the scan time as its first-seen cell; no two new rows share an address;
      and the count of rows written grows by the number of new rows. */
  predicate AppendedRows(st: ScanState, r: ScanState, scanTime: string) {
    var o := Rows(st.file);
    var n := Rows(r.file);
    && |o| <= |n| && n[..|o|] == o
    && r.written == st.written + (|n| - |o|)
    && (forall i :: |o| <= i < |n| ==>
          |n[i]| == Columns && n[i][0] !in st.ledger && n[i][0] in r.ledger && n[i][3] == scanTime)
    && (forall i, j :: |o| <= i < j < |n| ==> MacOf(n[i]) != MacOf(n[j]))
  }

  lemma ScanDeviceAppends(blacklist: seq<string>, env: ScanEnv, st: ScanState, mid: ScanState, d: Option<Device>)
    requires AppendedRows(st, mid, env.scanTime)
    requires forall k :: k in st.ledger ==> k in mid.ledger
    ensures AppendedRows(st, ScanDevice(blacklist, env, mid, d), env.scanTime)
  {
    var r := ScanDevice(blacklist, env, mid, d);
    var o, m, n := Rows(st.file), Rows(mid.file), Rows(r.file);
    if |n| > |m| {
      var dev := d.value;
      assert n == m + [n[|m|]];
      assert n[..|o|] == m[..|o|];
      assert forall i :: |o| <= i < |m| ==> n[i] == m[i] && MacOf(m[i]) in mid.ledger;
      assert MacOf(n[|m|]) == dev.mac && dev.mac !in mid.ledger;
    } else {
      assert n == m;
    }
  }

  lemma {:induction false} ScanAppendsRows(blacklist: seq<string>, env: ScanEnv, st: ScanState, ds: seq<Option<Device>>)
    ensures AppendedRows(st, ScanDevices(blacklist, env, st, ds), env.scanTime)
    decreases |ds|
  {
    if |ds| > 0 {
      var p := ds[..|ds| - 1];
      ScanAppendsRows(blacklist, env, st, p);
      ScanLedgerGrows(blacklist, env, st, p);
      ScanDeviceAppends(blacklist, env, st, ScanDevices(blacklist, env, st, p), ds[|ds| - 1]);
    } else {
      assert Rows(st.file)[..|Rows(st.file)|] == Rows(st.file);
    }
  }

  /** Blacklisted addresses are never added and never get a row. */
  lemma ScanSkipsBlacklisted(blacklist: seq<string>, env: ScanEnv, st: ScanState, ds: seq<Option<Device>>, k: string)
    requires k in blacklist
    ensures var r := ScanDevices(blacklist, env, st, ds);
      && (k in r.ledger <==> k in st.ledger)
      && forall i :: |Rows(st.file)| <= i < |Rows(r.file)| ==> MacOf(Rows(r.file)[i]) != k
  {
    ScanLedgerGrows(blacklist, env, st, ds);
    ScanNewEntries(blacklist, env, st, ds);
    ScanAppendsRows(blacklist, env, st, ds);
  }

  /** An address already in the ledger is skipped: its entry is unchanged and
      it gets no new row. */
  lemma ScanSkipsKnown(blacklist: seq<string>, env: ScanEnv, st: ScanState, ds: seq<Option<Device>>, k: string)
    requires k in st.ledger
    ensures var r := ScanDevices(blacklist, env, st, ds);
      && k in r.ledger && r.ledger[k] == st.ledger[k]
      && forall i :: |Rows(st.file)| <= i < |Rows(r.file)| ==> MacOf(Rows(r.file)[i]) != k
  {
    ScanLedgerGrows(blacklist, env, st, ds);
    ScanAppendsRows(blacklist, env, st, ds);
  }

  /** `j` is the first parsed line announcing `mac`. */
  predicate FirstAnnouncedAt(ds: seq<Option<Device>>, mac: string, j: int) {
    0 <= j < |ds| && Names(ds[j], mac) && forall i :: 0 <= i < j ==> !Names(ds[i], mac)
  }

  lemma FirstAnnouncement(ds: seq<Option<Device>>, mac: string, j0: nat)
    requires j0 < |ds| && Names(ds[j0], mac)
    ensures exists j :: FirstAnnouncedAt(ds, mac, j)
    decreases j0
  {
    if exists i :: 0 <= i < j0 && Names(ds[i], mac) {
      var i :| 0 <= i < j0 && Names(ds[i], mac);
      FirstAnnouncement(ds, mac, i);
    } else {
      assert FirstAnnouncedAt(ds, mac, j0);
    }
  }

  /** `row` is one of `rows` from position `lo` on. */
  predicate HasRowFrom(rows: seq<Row>, lo: nat, row: Row) {
    exists i :: lo <= i < |rows| && rows[i] == row
  }

  /** One step on a line announcing a new address whose write succeeds
      appends that address's row. */
  lemma ScanDeviceWrites(blacklist: seq<string>, env: ScanEnv, st: ScanState, d: Option<Device>)
    requires d.Some? && d.value.mac !in blacklist && d.value.mac !in st.ledger && env.writeOk(d.value.mac)
    ensures Rows(ScanDevice(blacklist, env, st, d).file)
         == Rows(st.file) + [DeviceRow(d.value.mac, d.value.name, env.scanTime, env.fix, InfoOf(env, d.value.mac))]
  {
  }

  /** A row present from `lo` on stays present after one more step. */
  lemma ScanDeviceKeepsRow(blacklist: seq<string>, env: ScanEnv, st: ScanState, d: Option<Device>, lo: nat, row: Row)
    requires HasRowFrom(Rows(st.file), lo, row)
    ensures HasRowFrom(Rows(ScanDevice(blacklist, env, st, d).file), lo, row)
  {
    var m := Rows(st.file);
    var n := Rows(ScanDevice(blacklist, env, st, d).file);
    var x :| lo <= x < |m| && m[x] == row;
    assert n[..|m|][x] == n[x];
  }

  /** An address first announced by the last line is written by that line. */
  lemma ScanWritesLastAnnouncement(blacklist: seq<string>, env: ScanEnv, st: ScanState,
                                   ds: seq<Option<Device>>, k: string)
    requires |ds| > 0 && FirstAnnouncedAt(ds, k, |ds| - 1) && k !in blacklist && k !in st.ledger && env.writeOk(k)
    ensures HasRowFrom(Rows(ScanDevices(blacklist, env, st, ds).file), |Rows(st.file)|,
                       DeviceRow(k, ds[|ds| - 1].value.name, env.scanTime, env.fix, InfoOf(env, k)))
  {
    var p := ds[..|ds| - 1];
    var mid := ScanDevices(blacklist, env, st, p);
    ScanNewEntries(blacklist, env, st, p);
    assert !AnnouncedIn(p, k) by {
      forall i | 0 <= i < |p| ensures !Names(p[i], k) {
        assert p[i] == ds[i];
      }
    }
    ScanDeviceWrites(blacklist, env, mid, ds[|ds| - 1]);
    var row := DeviceRow(k, ds[|ds| - 1].value.name, env.scanTime, env.fix, InfoOf(env, k));
    assert (Rows(mid.file) + [row])[|Rows(mid.file)|] == row;
  }

  /** An announced address that is neither blacklisted nor known, and whose
      write succeeds, gets a new row: the one built from its first announcing
      line, stamped with the scan time, the position fix and its info. */
  lemma {:induction false} ScanWritesFirstAnnouncement(blacklist: seq<string>, env: ScanEnv, st: ScanState,
                                                       ds: seq<Option<Device>>, k: string, j: int)
    requires FirstAnnouncedAt(ds, k, j) && k !in blacklist && k !in st.ledger && env.writeOk(k)
    ensures HasRowFrom(Rows(ScanDevices(blacklist, env, st, ds).file), |Rows(st.file)|,
                       DeviceRow(k, ds[j].value.name, env.scanTime, env.fix, InfoOf(env, k)))
    decreases |ds|
  {
    if j < |ds| - 1 {
      var p := ds[..|ds| - 1];
      assert FirstAnnouncedAt(p, k, j) by {
        assert forall i :: 0 <= i <= j ==> p[i] == ds[i];
      }
      ScanWritesFirstAnnouncement(blacklist, env, st, p, k, j);
      ScanDeviceKeepsRow(blacklist, env, ScanDevices(blacklist, env, st, p), ds[|ds| - 1], |Rows(st.file)|,
                         DeviceRow(k, p[j].value.name, env.scanTime, env.fix, InfoOf(env, k)));
    } else {
      ScanWritesLastAnnouncement(blacklist, env, st, ds, k);
    }
  }

  /** No row from index `lo` on is for address `k`. */
  predicate NoRowFrom(rows: seq<Row>, lo: nat, k: string) {
    forall i :: lo <= i < |rows| ==> MacOf(rows[i]) != k
  }

  /** One step appends no row for an address whose write fails. */
  lemma ScanDeviceNoRowFor(blacklist: seq<string>, env: ScanEnv, st: ScanState, d: Option<Device>, lo: nat, k: string)
    requires lo <= |Rows(st.file)| && NoRowFrom(Rows(st.file), lo, k) && !env.writeOk(k)
    ensures NoRowFrom(Rows(ScanDevice(blacklist, env, st, d).file), lo, k)
  {
    var m := Rows(st.file);
    var n := Rows(ScanDevice(blacklist, env, st, d).file);
    forall i | lo <= i < |n| ensures MacOf(n[i]) != k {
      if i < |m| {
        assert n[..|m|][i] == n[i];
      } else {
        var dev := d.value;
        assert n == m + [DeviceRow(dev.mac, dev.name, env.scanTime, env.fix, InfoOf(env, dev.mac))];
        assert env.writeOk(dev.mac);
      }
    }
  }

  /** An address whose write fails gets no row from the scan, although the
      scan records it (`ScanRecordsAnnounced`): it stays without a row until
      the ledger is emptied by a rollover or lost in a restart. */
  lemma {:induction false} ScanFailedWriteNoRow(blacklist: seq<string>, env: ScanEnv, st: ScanState,
                                                ds: seq<Option<Device>>, k: string)
    requires !env.writeOk(k)
    ensures NoRowFrom(Rows(ScanDevices(blacklist, env, st, ds).file), |Rows(st.file)|, k)
    decreases |ds|
  {
    if |ds| > 0 {
      var p := ds[..|ds| - 1];
      ScanFailedWriteNoRow(blacklist, env, st, p, k);
      ScanDeviceNoRowFor(blacklist, env, ScanDevices(blacklist, env, st, p), ds[|ds| - 1], |Rows(st.file)|, k);
    }
  }

  /** The addresses a scan announces that are neither blacklisted nor known. */
  function NewAddresses(blacklist: seq<string>, st: ScanState, ds: seq<Option<Device>>): set<string> {
    set j | 0 <= j < |ds| && ds[j].Some? && ds[j].value.mac !in blacklist && ds[j].value.mac !in st.ledger
      :: ds[j].value.mac
  }

  /** The addresses of the rows from `lo` on. */
  function MacsFrom(rows: seq<Row>, lo: nat): set<string> {
    set i | lo <= i < |rows| :: MacOf(rows[i])
  }

  lemma {:induction false} MacsFromCard(rows: seq<Row>, lo: nat)
    requires lo <= |rows|
    requires forall i, j :: lo <= i < j < |rows| ==> MacOf(rows[i]) != MacOf(rows[j])
    ensures |MacsFrom(rows, lo)| == |rows| - lo
    decreases |rows| - lo
  {
    if lo < |rows| {
      MacsFromCard(rows, lo + 1);
      assert MacsFrom(rows, lo) == {MacOf(rows[lo])} + MacsFrom(rows, lo + 1);
      assert MacOf(rows[lo]) !in MacsFrom(rows, lo + 1);
    } else {
      assert MacsFrom(rows, lo) == {};
    }
  }

  /** When every write succeeds, the new rows are for exactly the new
      addresses, one row each, and the count written is their number. */
  lemma ScanWritesEveryNew(blacklist: seq<string>, env: ScanEnv, st: ScanState, ds: seq<Option<Device>>)
    requires forall k :: env.writeOk(k)
    ensures var r := ScanDevices(blacklist, env, st, ds);
      && MacsFrom(Rows(r.file), |Rows(st.file)|) == NewAddresses(blacklist, st, ds)
      && r.written - st.written == |NewAddresses(blacklist, st, ds)|
  {
    var r := ScanDevices(blacklist, env, st, ds);
    var o, n := Rows(st.file), Rows(r.file);
    ScanAppendsRows(blacklist, env, st, ds);
    ScanNewEntries(blacklist, env, st, ds);
    forall k | k in MacsFrom(n, |o|) ensures k in NewAddresses(blacklist, st, ds) {
      var i :| |o| <= i < |n| && MacOf(n[i]) == k;
      assert k !in st.ledger && k in r.ledger;
      var j :| 0 <= j < |ds| && Names(ds[j], k);
    }
    forall k | k in NewAddresses(blacklist, st, ds) ensures k in MacsFrom(n, |o|) {
      var j0 :| 0 <= j0 < |ds| && ds[j0].Some? && ds[j0].value.mac !in blacklist
        && ds[j0].value.mac !in st.ledger && ds[j0].value.mac == k;
      FirstAnnouncement(ds, k, j0);
      var j :| FirstAnnouncedAt(ds, k, j);
      ScanWritesFirstAnnouncement(blacklist, env, st, ds, k, j);
      var i :| |o| <= i < |n| && n[i] == DeviceRow(k, ds[j].value.name, env.scanTime, env.fix, InfoOf(env, k));
      assert MacOf(n[i]) == k;
    }
    MacsFromCard(n, |o|);
  }

  // ---------------- The file epoch ----------------

  /** The address cell of a row. */
  function MacOf(row: Row): string {
    if |row| > 0 then row[0] else ""
  }

  /** Since the file was last started: every device row is well formed and
      recorded in the ledger with its first-seen cell, and no two device rows
      share an address. */
  predicate Epoch(rows: seq<Row>, ledger: Ledger) {
    && (forall i :: 0 <= i < |rows| ==>
          |rows[i]| == Columns && rows[i][0] in ledger && ledger[rows[i][0]] == rows[i][3])
    && (forall i, j :: 0 <= i < j < |rows| ==> MacOf(rows[i]) != MacOf(rows[j]))
  }

  predicate EpochFile(file: Option<seq<Row>>, ledger: Ledger) {
    Epoch(Body(Rows(file)), ledger)
  }

  /** A freshly started file, or none at all, is an epoch for any ledger. */
  lemma EpochOfFreshFile(ledger: Ledger)
    ensures EpochFile(Some(HeaderRows), ledger) && EpochFile(None, ledger)
  {
    BodyOfHeaderRows();
  }

  /** Recording a new address keeps an epoch. */
  lemma EpochExtend(rows: seq<Row>, ledger: Ledger, mac: string, t: string)
    requires Epoch(rows, ledger) && mac !in ledger
    ensures Epoch(rows, ledger[mac := t])
  {
  }

  /** A well-formed row for a new address, recorded with its first-seen
      cell, extends an epoch. */
  lemma EpochSnoc(rows: seq<Row>, ledger: Ledger, row: Row)
    requires Epoch(rows, ledger) && |row| == Columns && row[0] !in ledger
    ensures Epoch(rows + [row], ledger[row[0] := row[3]])
  {
    var n := rows + [row];
    var l := ledger[row[0] := row[3]];
    forall i | 0 <= i < |rows| ensures MacOf(n[i]) != row[0] && n[i][0] in l && l[n[i][0]] == n[i][3] {
      assert n[i] == rows[i];
    }
    assert n[|rows|] == row;
  }

  /** Appending such a row to the file keeps the file an epoch. */
  lemma EpochFileAppend(file: Option<seq<Row>>, ledger: Ledger, row: Row)
    requires EpochFile(file, ledger) && |row| == Columns && row[0] !in ledger && row != Header
    ensures EpochFile(Some(Rows(file) + [row]), ledger[row[0] := row[3]])
  {
    BodyAppend(Rows(file), row);
    EpochSnoc(Body(Rows(file)), ledger, row);
  }

  lemma ScanDeviceKeepsEpoch(blacklist: seq<string>, env: ScanEnv, st: ScanState, d: Option<Device>)
    requires EpochFile(st.file, st.ledger)
    ensures var r := ScanDevice(blacklist, env, st, d); EpochFile(r.file, r.ledger)
  {
    if d.Some? && d.value.mac !in blacklist && d.value.mac !in st.ledger {
      var dev := d.value;
      if env.writeOk(dev.mac) {
        var info := InfoOf(env, dev.mac);
        var row := DeviceRow(dev.mac, dev.name, env.scanTime, env.fix, info);
        DeviceRowIsNotHeader(dev.mac, dev.name, env.scanTime, env.fix, info);
        EpochFileAppend(st.file, st.ledger, row);
      } else {
        EpochExtend(Body(Rows(st.file)), st.ledger, dev.mac, env.scanTime);
      }
    }
  }

  /** A scan keeps the epoch: the new rows are for new addresses, which it
      records with the same first-seen time it writes. So no two rows of one
      file epoch share a MAC. */
  lemma {:induction false} ScanKeepsEpoch(blacklist: seq<string>, env: ScanEnv, st: ScanState, ds: seq<Option<Device>>)
    requires EpochFile(st.file, st.ledger)
    ensures var r := ScanDevices(blacklist, env, st, ds); EpochFile(r.file, r.ledger)
    decreases |ds|
  {
    if |ds| > 0 {
      var p := ds[..|ds| - 1];
      ScanKeepsEpoch(blacklist, env, st, p);
      ScanDeviceKeepsEpoch(blacklist, env, ScanDevices(blacklist, env, st, p), ds[|ds| - 1]);
    }
  }

  // ---------------- Bootstrap ----------------

  /** `row[0].strip().upper()`. */
  function NormalizeMac(cell: string): string {
    Upper(Strip(cell))
  }

  /** A normalised address is trimmed and upper-case, so normalising it
      again changes nothing. */
  lemma NormalizeMacIdempotent(cell: string)
    ensures var mac := NormalizeMac(cell);
      Trimmed(mac) && Upper(mac) == mac && NormalizeMac(mac) == mac
  {
    var t := Strip(cell);
    StripIdempotent(cell);
    UpperKeepsTrimmed(t);
    var mac := Upper(t);
    UpperIdempotent(t);
    assert Upper(mac) == mac;
    StripOfTrimmed(mac);
    assert NormalizeMac(mac) == Upper(mac);
  }

  /** A non-empty row whose normalised first cell is neither empty nor `MAC`. */
  predicate IsDataRow(row: Row) {
    |row| > 0 && IsAddress(NormalizeMac(row[0]))
  }

  /** A normalised first cell that names a device: neither empty nor `MAC`. */
  predicate IsAddress(mac: string) {
    mac != "" && mac != "MAC"
  }

  predicate RowHasMac(row: Row, mac: string) {
    IsDataRow(row) && NormalizeMac(row[0]) == mac
  }

  predicate LoadedMac(rows: seq<Row>, mac: string) {
    exists j :: 0 <= j < |rows| && RowHasMac(rows[j], mac)
  }

  /** `row[3]`, or the current time for a row with fewer than four cells. */
  function FirstSeenOf(row: Row, now: string): string {
    if |row| > 3 then row[3] else now
  }

  /** What one row tells the loader: an address and its first-seen time. */
  datatype Sighting = Sighting(mac: string, firstSeen: string)

  function SightingOf(row: Row, now: string): Option<Sighting> {
    if IsDataRow(row) then Some(Sighting(NormalizeMac(row[0]), FirstSeenOf(row, now))) else None
  }

  function Sightings(rows: seq<Row>, now: string): (ss: seq<Option<Sighting>>)
    ensures |ss| == |rows|
    ensures forall i :: 0 <= i < |rows| ==> ss[i] == SightingOf(rows[i], now)
  {
    seq(|rows|, i requires 0 <= i < |rows| => SightingOf(rows[i], now))
  }

  predicate Sees(s: Option<Sighting>, mac: string) {
    s.Some? && s.value.mac == mac
  }

  predicate SeenIn(ss: seq<Option<Sighting>>, mac: string) {
    exists j :: 0 <= j < |ss| && Sees(ss[j], mac)
  }

  /** One iteration of the loop in `_load_existing_devices`: an address not
      yet in the ledger is entered, one already there is left alone. */
  function Record(ledger: Ledger, s: Option<Sighting>): Ledger {
    if s.Some? && s.value.mac !in ledger then ledger[s.value.mac := s.value.firstSeen] else ledger
  }

  function RecordAll(ledger: Ledger, ss: seq<Option<Sighting>>): Ledger
    decreases |ss|
  {
    if |ss| == 0 then ledger
    else Record(RecordAll(ledger, ss[..|ss| - 1]), ss[|ss| - 1])
  }

  /** The loop over the data rows after the header. */
  function LoadRows(ledger: Ledger, rows: seq<Row>, now: string): Ledger {
    RecordAll(ledger, Sightings(rows, now))
  }

  /** The first record starts with `WigleWifi`. */
  predicate IsPreHeaderRow(row: Row) {
    |row| > 0 && StartsWith(row[0], "WigleWifi")
  }

  function AfterPreHeader(rows: seq<Row>): seq<Row> {
    if |rows| > 0 && IsPreHeaderRow(rows[0]) then rows[1..] else rows
  }

  /** A header row is present and its first cell is `MAC`. */
  predicate HasHeader(rows: seq<Row>) {
    |rows| > 0 && |rows[0]| > 0 && rows[0][0] == "MAC"
  }

  /** `_load_existing_devices`. The file's rows are given, `None` when opening
      or reading it fails, in which case the ledger starts empty; without a
      header the ledger is left as it was. */
  function Bootstrap(ledger: Ledger, file: Option<seq<Row>>, now: string): (b: Ledger)
    ensures file.None? ==> b == map[]
    ensures file.Some? ==> forall k :: k in ledger ==> k in b && b[k] == ledger[k]
  {
    match file
    case None => map[]
    case Some(rows) =>
      var rest := AfterPreHeader(rows);
      if HasHeader(rest) then
        RecordAllKeeps(ledger, Sightings(rest[1..], now));
        LoadRows(ledger, rest[1..], now)
      else ledger
  }

  /** Loading keeps every entry already present. */
  lemma {:induction false} RecordAllKeeps(ledger: Ledger, ss: seq<Option<Sighting>>)
    ensures var r := RecordAll(ledger, ss);
      forall k :: k in ledger ==> k in r && r[k] == ledger[k]
    decreases |ss|
  {
    if |ss| > 0 {
      RecordAllKeeps(ledger, ss[..|ss| - 1]);
    }
  }

  /** After loading, the addresses are the old ones and those sighted,
      nothing else. */
  lemma {:induction false} RecordAllKeys(ledger: Ledger, ss: seq<Option<Sighting>>)
    ensures var r := RecordAll(ledger, ss);
      forall k :: k in r <==> k in ledger || SeenIn(ss, k)
    decreases |ss|
  {
    if |ss| > 0 {
      var p := ss[..|ss| - 1];
      RecordAllKeys(ledger, p);
      var r := RecordAll(ledger, ss);
      forall k ensures k in r <==> k in ledger || SeenIn(ss, k) {
        if SeenIn(p, k) {
          var j :| 0 <= j < |p| && Sees(p[j], k);
          assert Sees(ss[j], k);
        }
        if SeenIn(ss, k) {
          var j :| 0 <= j < |ss| && Sees(ss[j], k);
          if j < |p| {
            assert Sees(p[j], k);
          }
        }
      }
    }
  }

  /** An address new to the ledger takes the time of its first sighting;
      later ones are ignored. */
  lemma {:induction false} RecordAllFirst(ledger: Ledger, ss: seq<Option<Sighting>>, k: string, j: nat)
    requires k !in ledger
    requires j < |ss| && Sees(ss[j], k)
    requires forall i :: 0 <= i < j ==> !Sees(ss[i], k)
    ensures var r := RecordAll(ledger, ss); k in r && r[k] == ss[j].value.firstSeen
    decreases |ss|
  {
    var p := ss[..|ss| - 1];
    if j < |p| {
      assert forall i :: 0 <= i < j ==> p[i] == ss[i];
      RecordAllFirst(ledger, p, k, j);
    } else {
      RecordAllKeys(ledger, p);
    }
  }

  lemma SightingsSee(rows: seq<Row>, now: string, k: string, j: nat)
    requires j < |rows|
    ensures Sees(Sightings(rows, now)[j], k) <==> RowHasMac(rows[j], k)
  {
  }

  /** After loading rows, the addresses are the old ones and those of the
      data rows, nothing else. */
  lemma LoadRowsKeys(ledger: Ledger, rows: seq<Row>, now: string)
    ensures var r := LoadRows(ledger, rows, now);
      forall k :: k in r <==> k in ledger || LoadedMac(rows, k)
  {
    var ss := Sightings(rows, now);
    RecordAllKeys(ledger, ss);
    forall k ensures SeenIn(ss, k) <==> LoadedMac(rows, k) {
      if SeenIn(ss, k) {
        var j :| 0 <= j < |ss| && Sees(ss[j], k);
        SightingsSee(rows, now, k, j);
      }
      if LoadedMac(rows, k) {
        var j :| 0 <= j < |rows| && RowHasMac(rows[j], k);
        SightingsSee(rows, now, k, j);
      }
    }
  }

  /** When a MAC repeats, the first data row naming it supplies the
      first-seen time. */
  lemma LoadRowsFirst(ledger: Ledger, rows: seq<Row>, now: string, k: string, j: nat)
    requires k !in ledger
    requires j < |rows| && RowHasMac(rows[j], k)
    requires forall i :: 0 <= i < j ==> !RowHasMac(rows[i], k)
    ensures var r := LoadRows(ledger, rows, now); k in r && r[k] == FirstSeenOf(rows[j], now)
  {
    var ss := Sightings(rows, now);
    forall i | 0 <= i < j ensures !Sees(ss[i], k) {
      SightingsSee(rows, now, k, i);
    }
    SightingsSee(rows, now, k, j);
    RecordAllFirst(ledger, ss, k, j);
  }

  /** Bootstrap keeps the entries already there and adds exactly the
      addresses of the data rows after the header; with no readable header it
      adds nothing. */
  lemma BootstrapKeys(ledger: Ledger, rows: seq<Row>, now: string)
    ensures var r := Bootstrap(ledger, Some(rows), now);
      && (forall k :: k in ledger ==> k in r && r[k] == ledger[k])
      && (HasHeader(AfterPreHeader(rows)) ==>
            forall k :: k in r <==> k in ledger || LoadedMac(AfterPreHeader(rows)[1..], k))
      && (!HasHeader(AfterPreHeader(rows)) ==> r == ledger)
  {
    var rest := AfterPreHeader(rows);
    if HasHeader(rest) {
      RecordAllKeeps(ledger, Sightings(rest[1..], now));
      LoadRowsKeys(ledger, rest[1..], now);
    }
  }

  /** An address in its normal form, as the bootstrap would read it back. */
  predicate Canonical(mac: string) {
    NormalizeMac(mac) == mac && IsAddress(mac)
  }

  predicate MacIn(rows: seq<Row>, mac: string) {
    exists i :: 0 <= i < |rows| && MacOf(rows[i]) == mac
  }

  /** Sightings with distinct addresses, each timed as `l` has it, load as
      exactly `l` on those addresses. */
  lemma {:induction false} RecordAllDistinct(ss: seq<Option<Sighting>>, l: Ledger)
    requires forall i :: 0 <= i < |ss| ==> ss[i].Some? && ss[i].value.mac in l && l[ss[i].value.mac] == ss[i].value.firstSeen
    requires forall i, j :: 0 <= i < j < |ss| && ss[i].Some? && ss[j].Some? ==> ss[i].value.mac != ss[j].value.mac
    ensures var b := RecordAll(map[], ss);
      && (forall k :: k in b <==> SeenIn(ss, k))
      && (forall k :: k in b ==> k in l && b[k] == l[k])
    decreases |ss|
  {
    if |ss| > 0 {
      var p := ss[..|ss| - 1];
      var x := ss[|ss| - 1];
      assert forall i :: 0 <= i < |p| ==> p[i] == ss[i];
      RecordAllDistinct(p, l);
      var bp := RecordAll(map[], p);
      assert x.value.mac !in bp;
      var b := RecordAll(map[], ss);
      forall k ensures k in b <==> SeenIn(ss, k) {
        if SeenIn(p, k) {
          var i :| 0 <= i < |p| && Sees(p[i], k);
          assert Sees(ss[i], k);
        }
        if SeenIn(ss, k) && k != x.value.mac {
          var i :| 0 <= i < |ss| && Sees(ss[i], k);
          assert i < |p| && Sees(p[i], k);
        }
      }
    }
  }

  lemma SightingOfCanonical(row: Row, now: string)
    requires |row| > 3 && Canonical(row[0])
    ensures SightingOf(row, now) == Some(Sighting(row[0], row[3]))
  {
    assert IsDataRow(row);
  }

  /** The header rows this program writes are recognised on reading back. */
  lemma ReadBackHeaderRows(rows: seq<Row>)
    ensures var rest := AfterPreHeader(HeaderRows + rows); HasHeader(rest) && rest[1..] == rows
  {
    var f := HeaderRows + rows;
    assert f[0] == PreHeader;
    assert PreHeader[0][..9] == "WigleWifi";
    assert f[1..] == [Header] + rows;
    assert ([Header] + rows)[1..] == rows;
  }

  /** Reading back a file this program started loads its device rows. */
  lemma BootstrapOfWritten(rows: seq<Row>, now: string)
    ensures Bootstrap(map[], Some(HeaderRows + rows), now) == RecordAll(map[], Sightings(rows, now))
  {
    ReadBackHeaderRows(rows);
  }

  /** Rows in normal form are read back as the address and first-seen cells. */
  lemma SightingsOfCanonical(rows: seq<Row>, now: string)
    requires forall i :: 0 <= i < |rows| ==> |rows[i]| == Columns && Canonical(MacOf(rows[i]))
    ensures forall i :: 0 <= i < |rows| ==> Sightings(rows, now)[i] == Some(Sighting(rows[i][0], rows[i][3]))
  {
    forall i | 0 <= i < |rows| ensures Sightings(rows, now)[i] == Some(Sighting(rows[i][0], rows[i][3])) {
      SightingOfCanonical(rows[i], now);
    }
  }

  /** A restart recovers the epoch from a file this program wrote: reading
      back the header rows and the device rows gives exactly the devices of
      the file with their first-seen times, as the ledger had them, and the
      file is again an epoch for the recovered ledger. This needs every
      address in the file to be in normal form, which excludes an empty
      address and one reading `MAC`. */
  lemma BootstrapRecoversEpoch(rows: seq<Row>, l: Ledger, now: string)
    requires Epoch(rows, l)
    requires forall i :: 0 <= i < |rows| ==> Canonical(MacOf(rows[i]))
    ensures var b := Bootstrap(map[], Some(HeaderRows + rows), now);
      && (forall k :: k in b <==> MacIn(rows, k))
      && (forall k :: k in b ==> k in l && b[k] == l[k])
      && EpochFile(Some(HeaderRows + rows), b)
  {
    var ss := Sightings(rows, now);
    SightingsOfEpoch(rows, l, now);
    RecordAllDistinct(ss, l);
    var b := RecordAll(map[], ss);
    BootstrapOfWritten(rows, now);
    SeenInSightings(rows, now);
    EpochOfRecovered(rows, l, b);
    BodyOfWritten(rows);
  }

  /** The sightings of an epoch's rows in normal form are distinct and
      timed as the ledger has them. */
  lemma SightingsOfEpoch(rows: seq<Row>, l: Ledger, now: string)
    requires Epoch(rows, l)
    requires forall i :: 0 <= i < |rows| ==> Canonical(MacOf(rows[i]))
    ensures var ss := Sightings(rows, now);
      && (forall i :: 0 <= i < |ss| ==> ss[i].Some? && ss[i].value.mac in l && l[ss[i].value.mac] == ss[i].value.firstSeen)
      && (forall i, j :: 0 <= i < j < |ss| && ss[i].Some? && ss[j].Some? ==> ss[i].value.mac != ss[j].value.mac)
  {
    SightingsOfCanonical(rows, now);
  }

  /** The addresses seen among those sightings are the addresses of the rows. */
  lemma SeenInSightings(rows: seq<Row>, now: string)
    requires forall i :: 0 <= i < |rows| ==> |rows[i]| == Columns && Canonical(MacOf(rows[i]))
    ensures forall k :: SeenIn(Sightings(rows, now), k) <==> MacIn(rows, k)
  {
    var ss := Sightings(rows, now);
    SightingsOfCanonical(rows, now);
    assert forall i :: 0 <= i < |rows| ==> ss[i] == Some(Sighting(MacOf(rows[i]), rows[i][3]));
    forall k ensures SeenIn(ss, k) <==> MacIn(rows, k) {
      if SeenIn(ss, k) {
        var i :| 0 <= i < |ss| && Sees(ss[i], k);
        assert MacOf(rows[i]) == k;
      }
      if MacIn(rows, k) {
        var i :| 0 <= i < |rows| && MacOf(rows[i]) == k;
        assert Sees(ss[i], k);
      }
    }
  }

  /** The rows of an epoch for `l` are an epoch for a ledger that agrees
      with `l` on their addresses. */
  lemma EpochOfRecovered(rows: seq<Row>, l: Ledger, b: Ledger)
    requires Epoch(rows, l)
    requires forall k :: MacIn(rows, k) ==> k in b
    requires forall k :: k in b ==> k in l && b[k] == l[k]
    ensures Epoch(rows, b)
  {
    forall i | 0 <= i < |rows| ensures rows[i][0] in b && b[rows[i][0]] == rows[i][3] {
      assert MacIn(rows, rows[i][0]) by {
        assert MacOf(rows[i]) == rows[i][0];
      }
    }
  }

  lemma BodyOfWritten(rows: seq<Row>)
    ensures Body(Rows(Some(HeaderRows + rows))) == rows
  {
    var f := HeaderRows + rows;
    assert f[0] == PreHeader && f[1] == Header;
    assert f[2..] == rows;
  }

  // ---------------- Blacklist ----------------

  /** `[m.upper() for m in blacklist]`. */
  function NormalizeBlacklist(blacklist: seq<string>): (r: seq<string>)
    ensures |r| == |blacklist|
    ensures forall i :: 0 <= i < |r| ==> r[i] == Upper(blacklist[i])
  {
    if |blacklist| == 0 then [] else [Upper(blacklist[0])] + NormalizeBlacklist(blacklist[1..])
  }

  /** A configured address matches a scanned one that differs only in letter
      case, since the scan upper-cases what it reads. */
  lemma BlacklistMatchesAnyCase(blacklist: seq<string>, entry: string, scanned: string)
    requires entry in blacklist && Upper(scanned) == Upper(entry)
    ensures Upper(scanned) in NormalizeBlacklist(blacklist)
  {
    var i :| 0 <= i < |blacklist| && blacklist[i] == entry;
    assert NormalizeBlacklist(blacklist)[i] == Upper(entry);
  }
}
