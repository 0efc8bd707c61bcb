/**
 * The name a full devices file is given when it is rolled over into the
 * upload directory: its basename with every `.csv` replaced by
 * `_<timestamp>.csv` (`check_rollover`). The timestamp is the
 * `%Y%m%d_%H%M%S` rendering of the local clock, given as a string.
 */
module Rollover {
  import opened PyStr
  import opened UploadQueue

  /** `os.path.basename`: what follows the last `/`. */
  function Basename(path: string): (b: string)
    ensures '/' !in b
    ensures EndsWith(path, b)
    ensures |b| < |path| ==> path[|path| - |b| - 1] == '/'
    decreases |path|
  {
    if |path| == 0 || path[|path| - 1] == '/' then ""
    else
      var b := Basename(path[..|path| - 1]) + [path[|path| - 1]];
      assert path[..|path| - 1][|path| - |b|..] == path[|path| - |b|..|path| - 1];
      b
  }

  /** The basename of `dir/name` is `name` when the name holds no `/`. */
  lemma {:induction false} BasenameOfJoin(dir: string, name: string)
    requires '/' !in name
    ensures Basename(dir + "/" + name) == name
    decreases |name|
  {
    var p := dir + "/" + name;
    if |name| > 0 {
      var n := name[..|name| - 1];
      assert p[..|p| - 1] == dir + "/" + n;
      assert name == n + [name[|name| - 1]];
      BasenameOfJoin(dir, n);
    }
  }

  const Csv := ".csv"

  function Suffix(ts: string): string {
    "_" + ts + Csv
  }

  /** `base_name = basename.replace('.csv', f'_{ts}.csv')`. */
  function RolledName(base: string, ts: string): (r: string)
    ensures !Contains(base, Csv) ==> r == base
  {
    ReplaceAll(base, Csv, Suffix(ts))
  }

  /** No `.csv` starts inside `stem` in `stem + tail` when the stem holds no
      `.csv` and the tail starts with a dot: `.csv` cannot straddle the
      boundary, because no proper suffix of it starts with a dot. */
  lemma NoCsvBeforeDot(stem: string, tail: string)
    requires !Contains(stem, Csv) && |tail| > 0 && tail[0] == '.'
    ensures forall i :: 0 <= i < |stem| ==> !OccursAt(stem + tail, Csv, i)
  {
    var s := stem + tail;
    ContainsAt(stem, Csv);
    forall i | 0 <= i < |stem| ensures !OccursAt(s, Csv, i) {
      if i + 4 <= |stem| {
        assert stem[i..i + 4] == s[i..i + 4];
        assert !OccursAt(stem, Csv, i);
      } else if i + 4 <= |s| {
        assert s[i..i + 4][|stem| - i] == '.';
      }
    }
  }

  /** A basename ending in `.csv`, with no other `.csv` in it, gets the
      timestamp in front of the extension. */
  lemma {:induction false} RolledNameOfCsv(stem: string, ts: string)
    requires !Contains(stem, Csv)
    ensures RolledName(stem + Csv, ts) == stem + "_" + ts + Csv
  {
    NoCsvBeforeDot(stem, Csv);
    ReplaceAfterFree(stem, Csv, Csv, Suffix(ts));
    ReplaceAtStart(Csv, [], Suffix(ts));
    assert Csv + [] == Csv;
  }

  /** A stem without a dot holds no `.csv`. */
  lemma DotFreeHasNoCsv(stem: string)
    requires '.' !in stem
    ensures !Contains(stem, Csv)
  {
    forall i | 0 <= i ensures !OccursAt(stem, Csv, i) {
      if i + 4 <= |stem| {
        assert stem[i..i + 4][0] == stem[i];
      }
    }
    ContainsAt(stem, Csv);
  }

  /** Every `.csv` is replaced, not only the extension: `log.csv.csv`
      becomes `log_<ts>.csv_<ts>.csv`. */
  lemma RolledNameReplacesEvery(stem: string, ts: string)
    requires !Contains(stem, Csv)
    ensures RolledName(stem + Csv + Csv, ts) == stem + Suffix(ts) + Suffix(ts)
  {
    NoCsvBeforeDot(stem, Csv + Csv);
    assert stem + Csv + Csv == stem + (Csv + Csv);
    ReplaceAfterFree(stem, Csv + Csv, Csv, Suffix(ts));
    ReplaceAtStart(Csv, Csv, Suffix(ts));
    ReplaceAtStart(Csv, [], Suffix(ts));
    assert Csv + [] == Csv;
  }

  /** The replacement is case-sensitive: a basename with `.CSV` and no
      `.csv` keeps its name whatever the timestamp, so two rollovers give
      the same destination, and the later move replaces the earlier file. */
  lemma RolledNameKeepsUpperCase(stem: string, ts1: string, ts2: string)
    requires '.' !in stem
    ensures RolledName(stem + ".CSV", ts1) == stem + ".CSV"
    ensures RolledName(stem + ".CSV", ts1) == RolledName(stem + ".CSV", ts2)
  {
    DotFreeHasNoCsv(stem);
    NoCsvBeforeDot(stem, ".CSV");
    ReplaceAfterFree(stem, ".CSV", Csv, Suffix(ts1));
    ReplaceAfterFree(stem, ".CSV", Csv, Suffix(ts2));
    var u := ".CSV";
    assert u[..4][1] != Csv[1];
    assert u[1..] == "CSV";
  }

  /** Distinct timestamps give distinct names for a `.csv` basename. */
  lemma RolledNamesDistinct(stem: string, ts1: string, ts2: string)
    requires !Contains(stem, Csv) && ts1 != ts2
    ensures RolledName(stem + Csv, ts1) != RolledName(stem + Csv, ts2)
  {
    RolledNameOfCsv(stem, ts1);
    RolledNameOfCsv(stem, ts2);
    var a := stem + "_" + ts1 + Csv;
    var b := stem + "_" + ts2 + Csv;
    if |a| == |b| {
      assert a[|stem| + 1..|a| - 4] == ts1;
      assert b[|stem| + 1..|b| - 4] == ts2;
    }
  }

  /** The rolled name of a `.csv` basename is itself a CSV name, so the
      upload queue lists it. */
  lemma RolledNameIsCsv(stem: string, ts: string)
    requires !Contains(stem, Csv)
    ensures IsCsvName(RolledName(stem + Csv, ts))
  {
    RolledNameOfCsv(stem, ts);
    var r := stem + "_" + ts + Csv;
    var l := Lower(r);
    assert r[|r| - 4..] == Csv;
    assert l[|l| - 4..] == Csv by {
      forall k | 0 <= k < 4 ensures l[|l| - 4 + k] == Csv[k] {
        assert l[|l| - 4 + k] == LowerChar(r[|r| - 4 + k]);
      }
    }
  }

  /** The devices file `dir/<stem>.csv` is rolled over under the name
      `<stem>_<ts>.csv`, whatever directory it lives in. */
  lemma RolledNameOfPath(dir: string, stem: string, ts: string)
    requires '/' !in stem && !Contains(stem, Csv)
    ensures RolledName(Basename(dir + "/" + (stem + Csv)), ts) == stem + Suffix(ts)
  {
    assert '/' !in stem + Csv by {
      assert forall i :: 0 <= i < |Csv| ==> (stem + Csv)[|stem| + i] == Csv[i];
    }
    BasenameOfJoin(dir, stem + Csv);
    RolledNameOfCsv(stem, ts);
  }

}
