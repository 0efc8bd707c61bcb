/**
 * The position fix a scan stamps on its rows. The gpsd session itself (socket,
 * deadline, JSON decoding, float formatting) is not modelled: what it delivers
 * is a sequence of messages, each either undecodable or a report of some class
 * carrying coordinates already formatted the way the rows print them.
 */
module Gps {

  /** Latitude, longitude, altitude and accuracy, formatted for the row. */
  datatype Fix = Fix(lat: string, lon: string, alt: string, acc: string)

  /** `0.0, 0.0, 0.0, 0.0` formatted with 9, 9, 1 and 6 decimals. */
  const NoFix := Fix("0.000000000", "0.000000000", "0.0", "0.000000")

  datatype Message = Undecodable | Report(kind: string, fix: Fix)

  predicate IsTpv(m: Message) {
    m.Report? && m.kind == "TPV"
  }

  /** `get_gps_coords`: the first TPV report wins; undecodable lines and
      reports of other classes are passed over; with no TPV report (which
      includes a session that failed before one arrived) the fix is all
      zeros. */
  function FixOf(msgs: seq<Message>): (f: Fix)
    ensures f == NoFix || exists i :: 0 <= i < |msgs| && IsTpv(msgs[i]) && f == msgs[i].fix
    decreases |msgs|
  {
    if |msgs| == 0 then NoFix
    else if IsTpv(msgs[0]) then msgs[0].fix
    else FixOf(msgs[1..])
  }

  /** The first TPV report in the session is the one used. */
  lemma {:induction false} FixOfFirstTpv(msgs: seq<Message>, i: nat)
    requires i < |msgs| && IsTpv(msgs[i])
    requires forall j :: 0 <= j < i ==> !IsTpv(msgs[j])
    ensures FixOf(msgs) == msgs[i].fix
    decreases i
  {
    if i > 0 {
      assert !IsTpv(msgs[0]);
      assert msgs[1..][i - 1] == msgs[i];
      FixOfFirstTpv(msgs[1..], i - 1);
    }
  }

  /** Without a TPV report the fix is all zeros. */
  lemma {:induction false} FixOfNoTpv(msgs: seq<Message>)
    requires forall j :: 0 <= j < |msgs| ==> !IsTpv(msgs[j])
    ensures FixOf(msgs) == NoFix
    decreases |msgs|
  {
    if |msgs| > 0 {
      assert !IsTpv(msgs[0]);
      FixOfNoTpv(msgs[1..]);
    }
  }

  /** What arrives after the first TPV report has no effect. */
  lemma {:induction false} FixOfIgnoresLater(msgs: seq<Message>, later: seq<Message>)
    requires exists j :: 0 <= j < |msgs| && IsTpv(msgs[j])
    ensures FixOf(msgs + later) == FixOf(msgs)
    decreases |msgs|
  {
    assert (msgs + later)[0] == msgs[0];
    if !IsTpv(msgs[0]) {
      var j :| 0 <= j < |msgs| && IsTpv(msgs[j]);
      assert msgs[1..][j - 1] == msgs[j];
      assert (msgs + later)[1..] == msgs[1..] + later;
      FixOfIgnoresLater(msgs[1..], later);
    }
  }
}
