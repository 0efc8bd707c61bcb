/**
 * The three lookups over the output of `bluetoothctl info <mac>`: the
 * manufacturer, the signal strength and the device type. Each scans the
 * output line by line, acts on the first line holding its key word and falls
 * back to a default when there is none, or when the command or the parse of
 * that line fails. The command output is given: `None` stands for a command
 * that failed, `Some(lines)` for the lines it printed.
 */
module DeviceInfo {
  import opened Wrappers
  import opened PyStr

  /** `line.split(":", 1)[1].strip()`; `None` where taking the second piece
      raises `IndexError` because the line has no colon. */
  function ValueAfterColon(line: string): (v: Option<string>)
    ensures v.None? <==> ':' !in line
    ensures ':' in line ==> v == Some(Strip(line[IndexOf(line, ':') + 1..]))
  {
    var parts := Split(line, ':', 1);
    if |parts| < 2 then None else Some(Strip(parts[1]))
  }

  /** A `key: value` line yields the stripped value. */
  lemma ValueAfterColonOf(key: string, value: string)
    requires ':' !in key
    ensures ValueAfterColon(key + ":" + value) == Some(Strip(value))
  {
    SplitStep(key, value, ':', 1);
    SplitNone(value, ':', 0);
  }

  // ---------------- Manufacturer ----------------

  predicate IsManufacturerLine(line: string) {
    Contains(line, "Manufacturer")
  }

  /** The loop of `get_device_manufacturer`: the value of the first line
      naming a manufacturer, `""` when that line has no colon or no line
      names one. */
  function ManufacturerIn(lines: seq<string>): (m: string)
    ensures m == "" || exists i :: 0 <= i < |lines| && IsManufacturerLine(lines[i]) && ValueAfterColon(lines[i]) == Some(m)
    decreases |lines|
  {
    if |lines| == 0 then ""
    else if IsManufacturerLine(lines[0]) then ValueAfterColon(lines[0]).GetOr("")
    else ManufacturerIn(lines[1..])
  }

  /** `get_device_manufacturer(mac)` given the output of the info command. */
  function Manufacturer(out: Option<seq<string>>): (m: string)
    ensures out.None? ==> m == ""
  {
    match out
    case None => ""
    case Some(lines) => ManufacturerIn(lines)
  }

  /** The first manufacturer line decides the result. */
  lemma {:induction false} ManufacturerAt(lines: seq<string>, i: nat)
    requires i < |lines| && IsManufacturerLine(lines[i])
    requires forall j :: 0 <= j < i ==> !IsManufacturerLine(lines[j])
    ensures ManufacturerIn(lines) == ValueAfterColon(lines[i]).GetOr("")
    decreases i
  {
    if i > 0 {
      assert !IsManufacturerLine(lines[0]);
      assert lines[1..][i - 1] == lines[i];
      ManufacturerAt(lines[1..], i - 1);
    }
  }

  /** Without a manufacturer line the result is the empty default. */
  lemma {:induction false} ManufacturerNone(lines: seq<string>)
    requires forall j :: 0 <= j < |lines| ==> !IsManufacturerLine(lines[j])
    ensures ManufacturerIn(lines) == ""
    decreases |lines|
  {
    if |lines| > 0 {
      assert !IsManufacturerLine(lines[0]);
      ManufacturerNone(lines[1..]);
    }
  }

  // ---------------- RSSI ----------------

  predicate IsRssiLine(line: string) {
    Contains(line, "RSSI")
  }

  /** `int(...)` of a line's value, with 0 for a line that has no colon or
      whose value is not a base-10 integer. */
  function RssiValue(line: string): (v: int)
    ensures ':' !in line ==> v == 0
  {
    match ValueAfterColon(line)
    case None => 0
    case Some(v) => ParseInt(v).GetOr(0)
  }

  /** The loop of `get_device_rssi`. */
  function RssiIn(lines: seq<string>): (v: int)
    ensures v == 0 || exists i :: 0 <= i < |lines| && IsRssiLine(lines[i]) && RssiValue(lines[i]) == v
    decreases |lines|
  {
    if |lines| == 0 then 0
    else if IsRssiLine(lines[0]) then RssiValue(lines[0])
    else RssiIn(lines[1..])
  }

  /** `get_device_rssi(mac)` given the output of the info command. */
  function Rssi(out: Option<seq<string>>): (v: int)
    ensures out.None? ==> v == 0
  {
    match out
    case None => 0
    case Some(lines) => RssiIn(lines)
  }

  /** The first RSSI line decides the result. */
  lemma {:induction false} RssiAt(lines: seq<string>, i: nat)
    requires i < |lines| && IsRssiLine(lines[i])
    requires forall j :: 0 <= j < i ==> !IsRssiLine(lines[j])
    ensures RssiIn(lines) == RssiValue(lines[i])
    decreases i
  {
    if i > 0 {
      assert !IsRssiLine(lines[0]);
      assert lines[1..][i - 1] == lines[i];
      RssiAt(lines[1..], i - 1);
    }
  }

  /** Without an RSSI line the result is 0. */
  lemma {:induction false} RssiNone(lines: seq<string>)
    requires forall j :: 0 <= j < |lines| ==> !IsRssiLine(lines[j])
    ensures RssiIn(lines) == 0
    decreases |lines|
  {
    if |lines| > 0 {
      assert !IsRssiLine(lines[0]);
      RssiNone(lines[1..]);
    }
  }

  /** A line `<key>: <n>`, with `n` printed the way Python prints integers,
      reads back as `n`, whatever whitespace surrounds the number. */
  lemma RssiValueOf(key: string, pad: string, n: int, trail: string)
    requires ':' !in key && AllSpace(pad) && AllSpace(trail)
    ensures RssiValue(key + ":" + pad + IntToString(n) + trail) == n
  {
    var s := IntToString(n);
    assert key + ":" + pad + s + trail == key + ":" + (pad + s + trail);
    ValueAfterColonOf(key, pad + s + trail);
    IntToStringTrimmed(n);
    StripOfPadded(pad, s, trail);
    ParseIntOfString(n);
  }

  // ---------------- Type ----------------

  predicate IsTypeLine(line: string) {
    Contains(line, "Type")
  }

  /** A type line that ends the search: either it has no colon (the lookup
      raises and the default is returned) or its value names LE. */
  predicate EndsTypeSearch(line: string) {
    IsTypeLine(line) && (ValueAfterColon(line).None? || Contains(ValueAfterColon(line).value, "LE"))
  }

  /** A type line whose value names LE. */
  predicate IsLeLine(line: string) {
    IsTypeLine(line) && ValueAfterColon(line).Some? && Contains(ValueAfterColon(line).value, "LE")
  }

  /** The loop of `get_device_type`: a type line whose value mentions LE gives
      `"BLE"`, a type line without a colon stops with `"BT"`, any other type
      line is passed over. */
  function DeviceTypeIn(lines: seq<string>): (t: string)
    ensures t == "BT" || t == "BLE"
    decreases |lines|
  {
    if |lines| == 0 then "BT"
    else if IsTypeLine(lines[0]) then
      match ValueAfterColon(lines[0])
      case None => "BT"
      case Some(v) => if Contains(v, "LE") then "BLE" else DeviceTypeIn(lines[1..])
    else DeviceTypeIn(lines[1..])
  }

  /** `get_device_type(mac)` given the output of the info command. */
  function DeviceType(out: Option<seq<string>>): (t: string)
    ensures t == "BT" || t == "BLE"
    ensures out.None? ==> t == "BT"
  {
    match out
    case None => "BT"
    case Some(lines) => DeviceTypeIn(lines)
  }

  /** A line that does not end the search is passed over. */
  lemma DeviceTypeSkip(lines: seq<string>)
    requires |lines| > 0 && !EndsTypeSearch(lines[0])
    ensures DeviceTypeIn(lines) == DeviceTypeIn(lines[1..])
  {
  }

  /** A line that ends the search decides the type. */
  lemma DeviceTypeStop(lines: seq<string>)
    requires |lines| > 0 && EndsTypeSearch(lines[0])
    ensures DeviceTypeIn(lines) == (if IsLeLine(lines[0]) then "BLE" else "BT")
  {
  }

  /** The first line that ends the search decides the type: `"BLE"` exactly
      when that line names LE. */
  lemma {:induction false} DeviceTypeAt(lines: seq<string>, i: nat)
    requires i < |lines| && EndsTypeSearch(lines[i])
    requires forall j :: 0 <= j < i ==> !EndsTypeSearch(lines[j])
    ensures DeviceTypeIn(lines) == (if IsLeLine(lines[i]) then "BLE" else "BT")
    decreases i
  {
    if i > 0 {
      DeviceTypeSkip(lines);
      assert lines[1..][i - 1] == lines[i];
      DeviceTypeAt(lines[1..], i - 1);
    } else {
      DeviceTypeStop(lines);
    }
  }

  /** When no line ends the search the type is `"BT"`. */
  lemma {:induction false} DeviceTypeNone(lines: seq<string>)
    requires forall j :: 0 <= j < |lines| ==> !EndsTypeSearch(lines[j])
    ensures DeviceTypeIn(lines) == "BT"
    decreases |lines|
  {
    if |lines| > 0 {
      DeviceTypeSkip(lines);
      DeviceTypeNone(lines[1..]);
    }
  }

  /** A type line without a colon makes the lookup raise, which is caught, so
      the result is `"BT"` even when a later line says LE. */
  lemma TypeLineWithoutColon(line: string, rest: seq<string>)
    requires IsTypeLine(line) && ':' !in line
    ensures DeviceTypeIn([line] + rest) == "BT"
  {
    assert ([line] + rest)[0] == line;
  }
}
