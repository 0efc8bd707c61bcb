/**
 * The upload queue: the pending directory of rolled-over CSV files, listed
 * oldest first, and the upload of each to WiGLE with its outcome. The
 * directories are maps from file name to entry; the HTTP exchange and the
 * file moves are given as outcomes.
 */
module UploadQueue {
  import opened Wrappers
  import opened PyStr
  import opened WigleCsv

  /** A directory entry: a regular file with its mtime and rows, or anything
      else (a sub-directory, say). */
  datatype Entry = RegularFile(mtime: nat, rows: seq<Row>) | Other

  type Dir = map<string, Entry>

  /** `name.lower().endswith('.csv')`. */
  predicate IsCsvName(name: string) {
    EndsWith(Lower(name), ".csv")
  }

  predicate IsRegular(dir: Dir, name: string) {
    name in dir && dir[name].RegularFile?
  }

  /** What `_list_csv_files` keeps: a regular file with a CSV name. */
  predicate Eligible(dir: Dir, name: string) {
    IsCsvName(name) && IsRegular(dir, name)
  }

  predicate Distinct(s: seq<string>) {
    forall i, j :: 0 <= i < j < |s| ==> s[i] != s[j]
  }

  /** The list comprehension of `_list_csv_files`: the eligible names of the
      listing, in listing order. */
  function Candidates(listing: seq<string>, dir: Dir): (c: seq<string>)
    ensures forall n :: n in c <==> n in listing && Eligible(dir, n)
    ensures forall i :: 0 <= i < |c| ==> Eligible(dir, c[i])
    ensures Distinct(listing) ==> Distinct(c)
    decreases |listing|
  {
    if |listing| == 0 then []
    else if Eligible(dir, listing[0]) then [listing[0]] + Candidates(listing[1..], dir)
    else Candidates(listing[1..], dir)
  }

  predicate AllRegular(dir: Dir, names: seq<string>) {
    forall i :: 0 <= i < |names| ==> IsRegular(dir, names[i])
  }

  function MtimeOf(dir: Dir, name: string): nat
    requires IsRegular(dir, name)
  {
    dir[name].mtime
  }

  predicate SortedByMtime(dir: Dir, names: seq<string>)
    requires AllRegular(dir, names)
  {
    forall i, j :: 0 <= i < j < |names| ==> MtimeOf(dir, names[i]) <= MtimeOf(dir, names[j])
  }

  /** Inserts `n` after every name at most as old, so equal mtimes keep
      their order of arrival. */
  function InsertByMtime(dir: Dir, n: string, sorted: seq<string>): (r: seq<string>)
    requires IsRegular(dir, n) && AllRegular(dir, sorted)
    ensures multiset(r) == multiset(sorted) + multiset{n}
    ensures forall x :: x in r <==> x == n || x in sorted
    ensures AllRegular(dir, r)
    decreases |sorted|
  {
    if |sorted| == 0 then [n]
    else if MtimeOf(dir, n) < MtimeOf(dir, sorted[0]) then [n] + sorted
    else
      assert sorted == [sorted[0]] + sorted[1..];
      [sorted[0]] + InsertByMtime(dir, n, sorted[1..])
  }

  /** Inserting a new name into a list without repeats keeps it without repeats. */
  lemma {:induction false} InsertDistinct(dir: Dir, n: string, sorted: seq<string>)
    requires IsRegular(dir, n) && AllRegular(dir, sorted)
    ensures Distinct(sorted) && n !in sorted ==> Distinct(InsertByMtime(dir, n, sorted))
    decreases |sorted|
  {
    if !(Distinct(sorted) && n !in sorted) || |sorted| == 0 {
    } else if MtimeOf(dir, n) < MtimeOf(dir, sorted[0]) {
      DistinctCons(n, sorted);
    } else {
      assert sorted == [sorted[0]] + sorted[1..];
      assert Distinct(sorted[1..]) by {
        forall p, q | 0 <= p < q < |sorted| - 1 ensures sorted[1..][p] != sorted[1..][q] {
          assert sorted[1..][p] == sorted[p + 1] && sorted[1..][q] == sorted[q + 1];
        }
      }
      InsertDistinct(dir, n, sorted[1..]);
      assert sorted[0] !in sorted[1..];
      DistinctCons(sorted[0], InsertByMtime(dir, n, sorted[1..]));
    }
  }

  lemma DistinctCons(x: string, s: seq<string>)
    requires Distinct(s) && x !in s
    ensures Distinct([x] + s)
  {
    var t := [x] + s;
    forall p, q | 0 <= p < q < |t| ensures t[p] != t[q] {
      assert t[q] == s[q - 1];
      if p > 0 {
        assert t[p] == s[p - 1];
      }
    }
  }

  /** Inserting into a sorted list keeps it sorted. */
  lemma {:induction false} InsertSorted(dir: Dir, n: string, sorted: seq<string>)
    requires IsRegular(dir, n) && AllRegular(dir, sorted) && SortedByMtime(dir, sorted)
    ensures SortedByMtime(dir, InsertByMtime(dir, n, sorted))
    decreases |sorted|
  {
    if |sorted| > 0 && MtimeOf(dir, n) >= MtimeOf(dir, sorted[0]) {
      var rest := InsertByMtime(dir, n, sorted[1..]);
      InsertSorted(dir, n, sorted[1..]);
      var r := [sorted[0]] + rest;
      forall j | 0 <= j < |rest| ensures MtimeOf(dir, sorted[0]) <= MtimeOf(dir, rest[j]) {
        assert rest[j] in rest;
        if rest[j] != n {
          var k :| 0 <= k < |sorted[1..]| && sorted[1..][k] == rest[j];
          assert sorted[k + 1] == rest[j];
        }
      }
      forall i, j | 0 <= i < j < |r| ensures MtimeOf(dir, r[i]) <= MtimeOf(dir, r[j]) {
        if i > 0 {
          assert r[i] == rest[i - 1] && r[j] == rest[j - 1];
        } else {
          assert r[j] == rest[j - 1];
        }
      }
    }
  }

  /** `files.sort(key=getmtime)`: a stable sort by ascending mtime. */
  function SortByMtime(dir: Dir, names: seq<string>): (r: seq<string>)
    requires AllRegular(dir, names)
    ensures AllRegular(dir, r) && SortedByMtime(dir, r)
    ensures multiset(r) == multiset(names)
    ensures forall x :: x in r <==> x in names
    ensures Distinct(names) ==> Distinct(r)
    decreases |names|
  {
    if |names| == 0 then []
    else
      var p := names[..|names| - 1];
      assert names == p + [names[|names| - 1]];
      assert Distinct(names) ==> Distinct(p) && names[|names| - 1] !in p by {
        if Distinct(names) {
          assert forall i :: 0 <= i < |p| ==> p[i] == names[i];
        }
      }
      var sp := SortByMtime(dir, p);
      InsertSorted(dir, names[|names| - 1], sp);
      InsertDistinct(dir, names[|names| - 1], sp);
      InsertByMtime(dir, names[|names| - 1], sp)
  }

  /** `_list_csv_files`. The directory listing is given in the order
      `os.listdir` returns it, `None` when listing raises. */
  function ListCsvFiles(listing: Option<seq<string>>, dir: Dir): (files: seq<string>)
    ensures AllRegular(dir, files) && SortedByMtime(dir, files)
    ensures forall n :: n in files <==> listing.Some? && n in listing.value && Eligible(dir, n)
    ensures listing.None? ==> files == []
  {
    match listing
    case None => []
    case Some(names) => SortByMtime(dir, Candidates(names, dir))
  }

  /** The listing holds exactly the regular CSV files listed, each once when
      the directory listing names it once, oldest mtime first; a listing
      that raised yields nothing. */
  lemma ListCsvFilesSpec(listing: Option<seq<string>>, dir: Dir)
    ensures var files := ListCsvFiles(listing, dir);
      && AllRegular(dir, files) && SortedByMtime(dir, files)
      && (forall n :: n in files <==> listing.Some? && n in listing.value && Eligible(dir, n))
      && (listing.Some? && Distinct(listing.value) ==> Distinct(files))
  {
  }

  /** When the listing names every entry of the directory, the result holds
      every regular CSV file of the directory and nothing else. */
  lemma ListCsvFilesOfFullListing(listing: seq<string>, dir: Dir)
    requires forall n :: n in dir ==> n in listing
    ensures forall n :: n in ListCsvFiles(Some(listing), dir) <==> Eligible(dir, n)
  {
    ListCsvFilesSpec(Some(listing), dir);
  }

  // ---------------- Uploading one file ----------------

  /** The JSON body of a 200 response: not JSON, or an object whose
      `success` is truthy or not (a body that is not an object counts as
      not successful). */
  datatype ResponseBody = NotJson | Json(success: bool)

  /** The POST either raises or returns a status and a body. */
  datatype Response = Raised | Http(status: int, body: ResponseBody)

  /** What happens after a successful upload: `os.makedirs` of the uploaded
      directory raises, `shutil.move` raises, `os.remove` raises, or all
      succeed. */
  datatype Disposal = Disposed | MakedirsFails | MoveFails | RemoveFails

  datatype Attempt = Attempt(response: Response, disposal: Disposal)

  datatype Dirs = Dirs(pending: Dir, uploaded: Dir)

  datatype UploadConfig = UploadConfig(user: string, token: string, removeOnSuccess: bool)

  datatype UploadResult = UploadResult(ok: bool, dirs: Dirs)

  predicate HasCredentials(cfg: UploadConfig) {
    cfg.user != "" && cfg.token != ""
  }

  /** Status 200 with a truthy `success`. */
  predicate Accepted(r: Response) {
    r.Http? && r.status == 200 && r.body.Json? && r.body.success
  }

  /** `_upload_file`. */
  function Upload(cfg: UploadConfig, dirs: Dirs, name: string, a: Attempt): (res: UploadResult)
    ensures res.ok <==>
      HasCredentials(cfg) && IsRegular(dirs.pending, name) && Accepted(a.response) && a.disposal != MakedirsFails
    ensures !res.ok ==> res.dirs == dirs
    ensures res.dirs.pending != dirs.pending ==>
      res.ok && (a.disposal == Disposed || a.disposal == RemoveFails) && name !in res.dirs.pending
    ensures res.dirs.pending - {name} == dirs.pending - {name}
    ensures res.dirs.uploaded - {name} == dirs.uploaded - {name}
  {
    if !HasCredentials(cfg) then UploadResult(false, dirs)
    else if !IsRegular(dirs.pending, name) then UploadResult(false, dirs)
    else if !Accepted(a.response) then UploadResult(false, dirs)
    else
      match a.disposal
      case MakedirsFails => UploadResult(false, dirs)
      case MoveFails => UploadResult(true, dirs)
      case RemoveFails =>
        UploadResult(true, Dirs(dirs.pending - {name}, dirs.uploaded[name := dirs.pending[name]]))
      case Disposed =>
        var pending := dirs.pending - {name};
        if cfg.removeOnSuccess then UploadResult(true, Dirs(pending, dirs.uploaded - {name}))
        else UploadResult(true, Dirs(pending, dirs.uploaded[name := dirs.pending[name]]))
  }

  /** After an accepted upload whose move succeeds, the file has left the
      pending directory. It is in the uploaded directory, with its contents,
      exactly when `remove_on_success` is off or the `os.remove` raised. */
  lemma UploadAcceptedDisposes(cfg: UploadConfig, dirs: Dirs, name: string, a: Attempt)
    requires HasCredentials(cfg) && IsRegular(dirs.pending, name) && Accepted(a.response)
    requires a.disposal == Disposed || a.disposal == RemoveFails
    ensures var res := Upload(cfg, dirs, name, a);
      && res.ok && name !in res.dirs.pending
      && (name in res.dirs.uploaded <==> !cfg.removeOnSuccess || a.disposal == RemoveFails)
      && (name in res.dirs.uploaded ==> res.dirs.uploaded[name] == dirs.pending[name])
  {
  }

  /** A failed move after an accepted upload still reports success and
      leaves the file pending, so it is uploaded again next time. */
  lemma UploadMoveFails(cfg: UploadConfig, dirs: Dirs, name: string, a: Attempt)
    requires HasCredentials(cfg) && IsRegular(dirs.pending, name) && Accepted(a.response)
    requires a.disposal == MoveFails
    ensures Upload(cfg, dirs, name, a) == UploadResult(true, dirs)
  {
  }

  // ---------------- Draining the queue ----------------

  /** The loop of `_upload_all`: each listed file once, in order, with the
      outcome `outcomeOf` gives for it. */
  function Drain(cfg: UploadConfig, dirs: Dirs, files: seq<string>, outcomeOf: string -> Attempt): (r: Dirs)
    ensures forall n :: n in r.pending ==> n in dirs.pending && r.pending[n] == dirs.pending[n]
    decreases |files|
  {
    if |files| == 0 then dirs
    else
      var n := files[|files| - 1];
      Upload(cfg, Drain(cfg, dirs, files[..|files| - 1], outcomeOf), n, outcomeOf(n)).dirs
  }

  /** `n` has the same entries in both states. */
  predicate SameEntry(a: Dirs, b: Dirs, n: string) {
    && (n in a.pending <==> n in b.pending) && (n in a.pending ==> a.pending[n] == b.pending[n])
    && (n in a.uploaded <==> n in b.uploaded) && (n in a.uploaded ==> a.uploaded[n] == b.uploaded[n])
  }

  lemma UploadKeepsOthers(cfg: UploadConfig, dirs: Dirs, name: string, a: Attempt, n: string)
    requires n != name
    ensures SameEntry(dirs, Upload(cfg, dirs, name, a).dirs, n)
  {
    var r := Upload(cfg, dirs, name, a).dirs;
    assert n in dirs.pending <==> n in dirs.pending - {name};
    assert n in r.pending <==> n in r.pending - {name};
    assert n in dirs.uploaded <==> n in dirs.uploaded - {name};
    assert n in r.uploaded <==> n in r.uploaded - {name};
    if n in dirs.pending {
      assert dirs.pending[n] == (dirs.pending - {name})[n];
      assert r.pending[n] == (r.pending - {name})[n];
    }
    if n in dirs.uploaded {
      assert dirs.uploaded[n] == (dirs.uploaded - {name})[n];
      assert r.uploaded[n] == (r.uploaded - {name})[n];
    }
  }

  /** A file that is not listed is not touched. */
  lemma {:induction false} DrainUntouched(cfg: UploadConfig, dirs: Dirs, files: seq<string>, outcomeOf: string -> Attempt, n: string)
    requires n !in files
    ensures SameEntry(dirs, Drain(cfg, dirs, files, outcomeOf), n)
    decreases |files|
  {
    if |files| > 0 {
      var p := files[..|files| - 1];
      assert n !in p by {
        assert forall i :: 0 <= i < |p| ==> p[i] == files[i];
      }
      DrainUntouched(cfg, dirs, p, outcomeOf, n);
      UploadKeepsOthers(cfg, Drain(cfg, dirs, p, outcomeOf), files[|files| - 1], outcomeOf(files[|files| - 1]), n);
    }
  }

  /** A pending file leaves the pending directory only when it was listed,
      the credentials were set and WiGLE accepted its upload. */
  lemma {:induction false} DrainDisposesOnlyAccepted(cfg: UploadConfig, dirs: Dirs, files: seq<string>, outcomeOf: string -> Attempt, n: string)
    requires n in dirs.pending && n !in Drain(cfg, dirs, files, outcomeOf).pending
    ensures n in files && HasCredentials(cfg) && Accepted(outcomeOf(n).response)
    decreases |files|
  {
    var p := files[..|files| - 1];
    var x := files[|files| - 1];
    var mid := Drain(cfg, dirs, p, outcomeOf);
    if n in mid.pending {
      if n != x {
        UploadKeepsOthers(cfg, mid, x, outcomeOf(x), n);
      }
    } else {
      DrainDisposesOnlyAccepted(cfg, dirs, p, outcomeOf, n);
    }
  }
}
