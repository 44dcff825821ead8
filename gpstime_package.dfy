/**
 * The leap-data policy of the `gpstime` package (gpstime/__init__.py): reading
 * one leap file, deciding whether the loaded data have expired, choosing which
 * cached file to load, and `update_leapdata`, which may refresh a cache file
 * from the IETF before reloading. The module globals LEAPDATA and
 * LEAPDATA_EXPIRE are the two fields of `LeapGlobals`.
 *
 * The clock, the environment variables and the download are parameters.
 */
module GpsTimePackage {
  import opened Wrappers
  import opened PyText
  import opened Calendar
  import opened Conversion
  import opened IetfList

  /** The user cache path, before `~` is expanded. */
  const LEAPFILE_USER: string := "~/.cache/gpstime/leap-seconds.list"
  const LEAPFILE_SYS: string := "/var/cache/gpstime/leap-seconds.list"
  /** The copy shipped inside the package directory. */
  const LEAPFILE_PAK: string := "gpstime/leap-seconds.list"
  const LEAPFILES: seq<string> := [LEAPFILE_USER, LEAPFILE_SYS, LEAPFILE_PAK]

  /**
   * `__ietf_parse_leapfile`: a file that does not exist gives an empty table
   * expiring at 0; a file without a `#@` line also expires at 0.
   */
  function LeapfileContents(fs: FileSystem, path: string): Result<(seq<Leap>, int), ParseError> {
    if path !in fs then Success(([], 0))
    else
      match Scan(fs[path])
      case Failure(e) => Failure(e)
      case Success(p) => Success((p.0, p.1.GetOr(0)))
  }

  method ParseLeapfile(fs: FileSystem, path: string) returns (r: Result<(seq<Leap>, int), ParseError>)
    ensures r == LeapfileContents(fs, path)
  {
    if path !in fs {
      return Success(([], 0));
    }
    var scanned := ParseIetfLines(fs[path]);
    match scanned
    case Failure(e) => r := Failure(e);
    case Success(p) => r := Success((p.0, p.1.GetOr(0)));
  }

  /** A cache file holding a written-out table reads back as that table and its expiry. */
  lemma LeapfileContentsOfRendered(fs: FileSystem, path: string, lines: seq<string>, t: seq<Leap>, expire: int)
    requires IsRenderedTable(lines, t, expire)
    requires forall k :: 0 <= k < |t| ==> t[k].instant > GPS0
    ensures LeapfileContents(fs[path := lines], path) == Success((t, expire))
  {
    ScanRenderedFile(lines, t, expire);
  }

  /** A file that parses but has no `#@` line expires at 0, as does a missing one. */
  lemma LeapfileWithoutExpiry(fs: FileSystem, path: string)
    requires path in fs && Scan(fs[path]).Success?
    requires forall i :: 0 <= i < |fs[path]| ==> !ClassifyLine(fs[path][i]).ExpiryRow?
    ensures LeapfileContents(fs, path).Success? && LeapfileContents(fs, path).value.1 == 0
  {
    ScanExpiry(Rows(fs[path]));
  }

  /** `is_leapdata_expired`: the data count as expired once the clock has reached the expiry. */
  predicate Expired(expire: int, now: real) {
    expire as real <= now
  }

  /** The files `__load_leapdata` tries: the one named by a non-empty IETF_LEAPFILE, else the three caches. */
  function Candidates(env: Option<string>): (paths: seq<string>)
    ensures |paths| >= 1
  {
    if env.Some? && env.value != [] then [env.value] else LEAPFILES
  }

  /** How a load ended: on an unexpired file, after the last candidate, or on a file that raised. */
  datatype LoadStatus = Fresh | AllExpired | LoadFailed(error: ParseError)

  /**
   * The status and the two globals after `__load_leapdata` has tried `paths`
   * starting from globals `data` and `expire`. Each parsed file is assigned
   * to the globals before its expiry is looked at; a file that raises leaves
   * them as they were.
   */
  function LoadFrom(fs: FileSystem, paths: seq<string>, now: real, data: Option<seq<Leap>>, expire: Option<int>)
    : (r: (LoadStatus, Option<seq<Leap>>, Option<int>))
    ensures r.0.Fresh? ==> r.1.Some? && r.2.Some? && !Expired(r.2.value, now)
    ensures r.0.Fresh? ==> exists i :: 0 <= i < |paths| && LeapfileContents(fs, paths[i]) == Success((r.1.value, r.2.value))
    ensures r.0.AllExpired? && paths != [] ==> r.1.Some? && r.2.Some? && Expired(r.2.value, now)
    ensures r.0.AllExpired? && paths == [] ==> r.1 == data && r.2 == expire
    decreases |paths|
  {
    if paths == [] then (AllExpired, data, expire)
    else
      match LeapfileContents(fs, paths[0])
      case Failure(e) => (LoadFailed(e), data, expire)
      case Success(p) =>
        if !Expired(p.1, now) then (Fresh, Some(p.0), Some(p.1))
        else LoadFrom(fs, paths[1..], now, Some(p.0), Some(p.1))
  }

  /** Whether `update_leapdata` skips the download: `update` is False, or the text FALSE or NO in any case. */
  datatype UpdateSetting = Unset | UpdateFalse | Setting(text: string)

  predicate SkipsDownload(update: UpdateSetting) {
    update.UpdateFalse? || (update.Setting? && update.text != [] && Upper(update.text) in ["FALSE", "NO"])
  }

  /** The file `update_leapdata` refreshes: its `leapfile` argument, or the user cache when that is empty. */
  function UpdateTarget(leapfile: Option<string>): string {
    if leapfile.None? || leapfile.value == [] then LEAPFILE_USER else leapfile.value
  }

  /** Why `update_leapdata` raised. */
  datatype UpdateError = DownloadFailed | LoadError(error: ParseError) | StillExpired

  /**
   * `update_leapdata` as written: the file system, the outcome and the two
   * globals afterwards. The reload after the download consults the same
   * candidates as at import; the `leapfile` argument is not among them.
   */
  function UpdateOutcome(fs: FileSystem, leapfile: Option<string>, update: UpdateSetting,
                         download: Option<seq<string>>, env: Option<string>, now: real,
                         data: Option<seq<Leap>>, expire: Option<int>)
    : (r: (FileSystem, Result<(), UpdateError>, Option<seq<Leap>>, Option<int>))
    ensures r.1.Success? ==> r.3.Some? && !Expired(r.3.value, now)
    ensures r.1 == Failure(StillExpired) ==> r.3.Some? && Expired(r.3.value, now)
    ensures r.1 == Failure(DownloadFailed) ==> r.0 == fs && r.2 == data && r.3 == expire
    ensures SkipsDownload(update) ==> r.0 == fs
  {
    ReloadAfterUpdate(fs, leapfile, update, download, now, data, expire, Candidates(env))
  }

  /**
   * `update_leapdata` as its documentation describes it: after the download
   * (or without one), the data are loaded from the file it names.
   */
  function UpdateOutcomeIntended(fs: FileSystem, leapfile: Option<string>, update: UpdateSetting,
                                 download: Option<seq<string>>, now: real,
                                 data: Option<seq<Leap>>, expire: Option<int>)
    : (r: (FileSystem, Result<(), UpdateError>, Option<seq<Leap>>, Option<int>))
    ensures r.1.Success? ==> r.3.Some? && !Expired(r.3.value, now)
    ensures r.1.Success? ==> (r.2.Some? && r.3.Some? &&
                              LeapfileContents(r.0, UpdateTarget(leapfile)) == Success((r.2.value, r.3.value)))
  {
    ReloadAfterUpdate(fs, leapfile, update, download, now, data, expire, [UpdateTarget(leapfile)])
  }

  /** The download step of `update_leapdata`, then a reload from `reload`, then the expiry test. */
  function ReloadAfterUpdate(fs: FileSystem, leapfile: Option<string>, update: UpdateSetting,
                             download: Option<seq<string>>, now: real,
                             data: Option<seq<Leap>>, expire: Option<int>, reload: seq<string>)
    : (r: (FileSystem, Result<(), UpdateError>, Option<seq<Leap>>, Option<int>))
    requires reload != []
    ensures r.1.Success? ==> r.3.Some? && !Expired(r.3.value, now)
    ensures r.1.Success? ==> (r.2.Some? &&
              exists i :: 0 <= i < |reload| && LeapfileContents(r.0, reload[i]) == Success((r.2.value, r.3.value)))
    ensures r.1 == Failure(StillExpired) ==> r.3.Some? && Expired(r.3.value, now)
  {
    if !SkipsDownload(update) && download.None? then (fs, Failure(DownloadFailed), data, expire)
    else
      var fs1 := if SkipsDownload(update) then fs else fs[UpdateTarget(leapfile) := download.value];
      var loaded := LoadFrom(fs1, reload, now, data, expire);
      match loaded.0
      case LoadFailed(e) => (fs1, Failure(LoadError(e)), loaded.1, loaded.2)
      case AllExpired => (fs1, Failure(StillExpired), loaded.1, loaded.2)
      case Fresh => (fs1, Success(()), loaded.1, loaded.2)
  }

  /** The module globals LEAPDATA and LEAPDATA_EXPIRE. */
  class LeapGlobals {
    var leapData: Option<seq<Leap>>
    var leapExpire: Option<int>

    /** Both globals start as None. */
    constructor ()
      ensures leapData == None && leapExpire == None
    {
      leapData := None;
      leapExpire := None;
    }

    /** `is_leapdata_expired` on the current globals. */
    predicate IsLeapdataExpired(now: real)
      reads this
      requires leapExpire.Some?
    {
      Expired(leapExpire.value, now)
    }

    /** `__load_leapdata`: parse each candidate into the globals until one has not expired. */
    method LoadLeapdata(fs: FileSystem, env: Option<string>, now: real) returns (status: LoadStatus)
      modifies this
      ensures (status, leapData, leapExpire) == LoadFrom(fs, Candidates(env), now, old(leapData), old(leapExpire))
    {
      var leapfiles := LEAPFILES;
      if env.Some? && env.value != [] {
        leapfiles := [env.value];
      }
      var i := 0;
      while i < |leapfiles|
        invariant 0 <= i <= |leapfiles|
        invariant LoadFrom(fs, leapfiles[i..], now, leapData, leapExpire)
                  == LoadFrom(fs, leapfiles, now, old(leapData), old(leapExpire))
      {
        assert leapfiles[i..][1..] == leapfiles[i + 1..];
        var parsed := ParseLeapfile(fs, leapfiles[i]);
        if parsed.Failure? {
          return LoadFailed(parsed.error);
        }
        leapData, leapExpire := Some(parsed.value.0), Some(parsed.value.1);
        if !Expired(parsed.value.1, now) {
          return Fresh;
        }
        i := i + 1;
      }
      return AllExpired;
    }

    /**
     * `update_leapdata`: unless told not to, replace the target file with the
     * download (a failed download raises), reload, and raise if the data
     * are still expired.
     */
    method UpdateLeapdata(fs: FileSystem, leapfile: Option<string>, update: UpdateSetting,
                          download: Option<seq<string>>, env: Option<string>, now: real)
      returns (fs': FileSystem, r: Result<(), UpdateError>)
      modifies this
      ensures (fs', r, leapData, leapExpire)
              == UpdateOutcome(fs, leapfile, update, download, env, now, old(leapData), old(leapExpire))
    {
      var target := if leapfile.None? || leapfile.value == [] then LEAPFILE_USER else leapfile.value;
      fs' := fs;
      if !SkipsDownload(update) {
        if download.None? {
          return fs, Failure(DownloadFailed);
        }
        fs' := fs[target := download.value];
      }
      var status := LoadLeapdata(fs', env, now);
      if status.LoadFailed? {
        return fs', Failure(LoadError(status.error));
      }
      if IsLeapdataExpired(now) {
        r := Failure(StillExpired);
      } else {
        r := Success(());
      }
    }
  }

  // ---------------------------------------------------------------- resolution

  /** The file at `path` parses, and its data have expired. */
  predicate ParsedExpired(fs: FileSystem, path: string, now: real) {
    LeapfileContents(fs, path).Success? && Expired(LeapfileContents(fs, path).value.1, now)
  }

  /** The table loaded is that of the first candidate that has not expired. */
  lemma {:induction false} LoadPicksFirstFresh(fs: FileSystem, paths: seq<string>, now: real,
                                              data: Option<seq<Leap>>, expire: Option<int>, i: nat)
    requires i < |paths|
    requires forall j :: 0 <= j < i ==> ParsedExpired(fs, paths[j], now)
    requires LeapfileContents(fs, paths[i]).Success? && !Expired(LeapfileContents(fs, paths[i]).value.1, now)
    ensures var p := LeapfileContents(fs, paths[i]).value;
            LoadFrom(fs, paths, now, data, expire) == (Fresh, Some(p.0), Some(p.1))
    decreases i
  {
    if i > 0 {
      var p := LeapfileContents(fs, paths[0]).value;
      assert Expired(p.1, now);
      assert forall j :: 0 <= j < i - 1 ==> paths[1..][j] == paths[j + 1];
      LoadPicksFirstFresh(fs, paths[1..], now, Some(p.0), Some(p.1), i - 1);
    }
  }

  /** When every candidate has expired, the globals keep the last candidate's table and expiry. */
  lemma {:induction false} LoadKeepsLastWhenAllExpired(fs: FileSystem, paths: seq<string>, now: real,
                                                      data: Option<seq<Leap>>, expire: Option<int>)
    requires paths != []
    requires forall j :: 0 <= j < |paths| ==> ParsedExpired(fs, paths[j], now)
    ensures var last := paths[|paths| - 1];
            ParsedExpired(fs, last, now) &&
            LoadFrom(fs, paths, now, data, expire)
            == (AllExpired, Some(LeapfileContents(fs, last).value.0), Some(LeapfileContents(fs, last).value.1))
    decreases |paths|
  {
    var p := LeapfileContents(fs, paths[0]).value;
    assert Expired(p.1, now);
    if |paths| > 1 {
      assert forall j :: 0 <= j < |paths| - 1 ==> paths[1..][j] == paths[j + 1];
      LoadKeepsLastWhenAllExpired(fs, paths[1..], now, Some(p.0), Some(p.1));
    }
  }

  /** With none of the cache files present, the package loads an empty table expiring at 0. */
  lemma LoadWithNoCacheFiles(fs: FileSystem, now: real, data: Option<seq<Leap>>, expire: Option<int>)
    requires LEAPFILE_USER !in fs && LEAPFILE_SYS !in fs && LEAPFILE_PAK !in fs
    requires now >= 0.0
    ensures LoadFrom(fs, Candidates(None), now, data, expire) == (AllExpired, Some([]), Some(0))
  {
    LoadKeepsLastWhenAllExpired(fs, LEAPFILES, now, data, expire);
  }

  /** IETF_LEAPFILE, when set and non-empty, is the only file consulted. */
  lemma EnvLeapfileOverrides(fs: FileSystem, path: string, now: real, data: Option<seq<Leap>>, expire: Option<int>)
    requires path != [] && LeapfileContents(fs, path).Success?
    ensures var p := LeapfileContents(fs, path).value;
            LoadFrom(fs, Candidates(Some(path)), now, data, expire)
            == (if Expired(p.1, now) then AllExpired else Fresh, Some(p.0), Some(p.1))
  {
  }

  // ---------------------------------------------------------------- update_leapdata

  /** The settings that skip the download, whatever their case; an empty text does not. */
  lemma SkipsDownloadSettings()
    ensures SkipsDownload(UpdateFalse)
    ensures SkipsDownload(Setting("no")) && SkipsDownload(Setting("False"))
    ensures !SkipsDownload(Unset) && !SkipsDownload(Setting("")) && !SkipsDownload(Setting("force"))
  {
    assert Upper("no") == "NO";
    assert Upper("False") == "FALSE";
    assert Upper("force") == "FORCE";
  }

  /** A successful download replaces the target file with the downloaded text, and nothing else. */
  lemma UpdateWritesTarget(fs: FileSystem, leapfile: Option<string>, update: UpdateSetting,
                           download: Option<seq<string>>, env: Option<string>, now: real,
                           data: Option<seq<Leap>>, expire: Option<int>)
    requires !SkipsDownload(update) && download.Some?
    ensures var r := UpdateOutcome(fs, leapfile, update, download, env, now, data, expire);
            r.0 == fs[UpdateTarget(leapfile) := download.value] && r.1 != Failure(DownloadFailed)
  {
  }

  /**
   * `update_leapdata` reloads from the default files rather than from the
   * file it was given: with a fresh table in that file and nothing
   * elsewhere, it raises that the data are still expired.
   */
  lemma UpdateIgnoresLeapfile()
    ensures var fs := map["/tmp/leap-seconds.list" := [RenderExpiry(10)]];
            UpdateOutcome(fs, Some("/tmp/leap-seconds.list"), UpdateFalse, None, None, 1.0, None, None).1
            == Failure(StillExpired)
    ensures var fs := map["/tmp/leap-seconds.list" := [RenderExpiry(10)]];
            UpdateOutcomeIntended(fs, Some("/tmp/leap-seconds.list"), UpdateFalse, None, 1.0, None, None)
            == (fs, Success(()), Some([]), Some(10))
  {
    var fs := map["/tmp/leap-seconds.list" := [RenderExpiry(10)]];
    LeapfileContentsOfRendered(map[], "/tmp/leap-seconds.list", [RenderExpiry(10)], [], 10);
    assert fs == map[][("/tmp/leap-seconds.list") := [RenderExpiry(10)]];
    LoadWithNoCacheFiles(fs, 1.0, None, None);
  }

  /**
   * Read as documented, `update_leapdata` succeeds exactly when the file it
   * names (after the download, if any) parses with an expiry still ahead, and
   * then holds that file's table.
   */
  lemma UpdateIntendedLoadsLeapfile(fs: FileSystem, leapfile: Option<string>, update: UpdateSetting,
                                    download: Option<seq<string>>, now: real,
                                    data: Option<seq<Leap>>, expire: Option<int>)
    requires SkipsDownload(update) || download.Some?
    ensures var fs1 := if SkipsDownload(update) then fs else fs[UpdateTarget(leapfile) := download.value];
            var p := LeapfileContents(fs1, UpdateTarget(leapfile));
            var r := UpdateOutcomeIntended(fs, leapfile, update, download, now, data, expire);
            r.1.Success? <==> p.Success? && !Expired(p.value.1, now)
  {
  }
}
