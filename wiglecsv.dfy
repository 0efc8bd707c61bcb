/**
 * The WiGLE CSV layout of the devices file: a pre-header line, a header row
 * and then one row per device. Rows are sequences of cells; the `csv`
 * module's quoting and line endings are not modelled.
 */
module WigleCsv {
  import opened PyStr
  import opened Gps

  type Row = seq<string>

  /** The pre-header line; it holds no quotes, so it reads back as these cells. */
  const PreHeader: Row := ["WigleWifi-1.6", "appRelease=1.0", "model=RaspberryPi",
    "release=jayofelony", "device=RaspberryPi", "display=display", "board=board",
    "brand=RaspberryPi", "star=Sol", "body=3", "subBody=0"]

  const Header: Row := ["MAC", "SSID", "AuthMode", "FirstSeen", "Channel", "Frequency",
    "RSSI", "CurrentLatitude", "CurrentLongitude", "AltitudeMeters",
    "AccuracyMeters", "RCOIs", "MfgrId", "Type"]

  /** The number of columns of the header, and of every device row. */
  const Columns: nat := 14

  lemma HeaderColumns()
    ensures |Header| == Columns
  {
  }

  /** What `write_csv_header` leaves in a fresh file. */
  const HeaderRows: seq<Row> := [PreHeader, Header]

  /** What the three info lookups found for one device. */
  datatype Info = Info(manufacturer: string, rssi: int, devType: string)

  /** The row `scan` writes for a newly seen device. */
  function DeviceRow(mac: string, name: string, firstSeen: string, fix: Fix, info: Info): (r: Row)
    ensures |r| == Columns && r[0] == mac && r[3] == firstSeen
  {
    [mac, name, "Misc [" + info.devType + "]", firstSeen, "0", "0", IntToString(info.rssi),
     fix.lat, fix.lon, fix.alt, fix.acc, "", info.manufacturer, info.devType]
  }

  /** Cell by cell, under the header's column names: the address, the name,
      the device type as `AuthMode`, the first-seen time, zero channel and
      frequency, the signal strength, the four fix fields, no RCOIs, the
      manufacturer and the device type. */
  lemma DeviceRowCells(mac: string, name: string, firstSeen: string, fix: Fix, info: Info)
    ensures var r := DeviceRow(mac, name, firstSeen, fix, info);
      && r[0] == mac && r[1] == name && r[2] == "Misc [" + info.devType + "]" && r[3] == firstSeen
      && r[4] == "0" && r[5] == "0" && r[6] == IntToString(info.rssi)
      && r[7] == fix.lat && r[8] == fix.lon && r[9] == fix.alt && r[10] == fix.acc
      && r[11] == "" && r[12] == info.manufacturer && r[13] == info.devType
  {
  }

  /** A device row can never be mistaken for the header, even for a device
      whose address reads `MAC`: its third cell starts with `Misc [`. */
  lemma DeviceRowIsNotHeader(mac: string, name: string, firstSeen: string, fix: Fix, info: Info)
    ensures DeviceRow(mac, name, firstSeen, fix, info) != Header
    ensures DeviceRow(mac, name, firstSeen, fix, info) != PreHeader
  {
    var r := DeviceRow(mac, name, firstSeen, fix, info);
    assert r[2][0] == 'M' && Header[2][0] == 'A';
    assert |PreHeader| != |r|;
  }

  predicate StartsWithHeader(f: seq<Row>) {
    |f| >= 2 && f[0] == PreHeader && f[1] == Header
  }

  /** The device rows of a file: everything after the two header rows, or
      the whole file when it does not start with them (as happens when the
      header could not be written and rows were appended to a new file). */
  function Body(f: seq<Row>): (b: seq<Row>)
    ensures StartsWithHeader(f) ==> f == HeaderRows + b
    ensures !StartsWithHeader(f) ==> b == f
  {
    if StartsWithHeader(f) then f[2..] else f
  }

  /** Appending a row that is not the header appends it to the body. */
  lemma BodyAppend(f: seq<Row>, r: Row)
    requires r != Header
    ensures Body(f + [r]) == Body(f) + [r]
  {
    if StartsWithHeader(f) {
      assert (f + [r])[2..] == f[2..] + [r];
    } else if |f| >= 2 {
      assert (f + [r])[0] == f[0] && (f + [r])[1] == f[1];
    } else if |f| == 1 {
      assert (f + [r])[1] == r;
    }
  }

  lemma BodyOfHeaderRows()
    ensures Body(HeaderRows) == []
  {
  }
}
