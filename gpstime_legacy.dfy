/**
 * The older single-file module gpstime.py: its `__ietf_parse_leapfile`
 * (the same line loop as the package, but a missing file raises and a file
 * without a `#@` line leaves the expiry unbound, which raises too) and
 * `__ietf_get_uptodate`, which picks the user or the system cache when its
 * expiry is still ahead and otherwise refreshes the user cache and uses it.
 */
module GpsTimeLegacy {
  import opened Wrappers
  import opened Conversion
  import opened IetfList
  import GpsTimePackage

  const LEAPFILE_USER: string := "~/.cache/gpstime/leap-seconds.list"
  const LEAPFILE_SYS: string := "/var/cache/gpstime/leap-seconds.list"

  /** Why the legacy module could not produce a table. */
  datatype LegacyError = FileMissing(path: string) | ParseFailed(error: ParseError)

  /** gpstime.py's `__ietf_parse_leapfile`: the table and the expiry of the last `#@` line. */
  function LegacyLeapfile(fs: FileSystem, path: string): (r: Result<(seq<Leap>, int), LegacyError>)
    ensures r.Success? ==> path in fs && Scan(fs[path]) == Success((r.value.0, Some(r.value.1)))
    ensures path in fs && Scan(fs[path]).Success? && Scan(fs[path]).value.1.None? ==> r == Failure(ParseFailed(NoExpiry))
  {
    if path !in fs then Failure(FileMissing(path))
    else
      match Scan(fs[path])
      case Failure(e) => Failure(ParseFailed(e))
      case Success(p) => if p.1.None? then Failure(ParseFailed(NoExpiry)) else Success((p.0, p.1.value))
  }

  method ParseLegacyLeapfile(fs: FileSystem, path: string) returns (r: Result<(seq<Leap>, int), LegacyError>)
    ensures r == LegacyLeapfile(fs, path)
  {
    if path !in fs {
      return Failure(FileMissing(path));
    }
    var scanned := ParseIetfLines(fs[path]);
    if scanned.Failure? {
      return Failure(ParseFailed(scanned.error));
    }
    var expire := scanned.value.1;
    if expire.None? {
      return Failure(ParseFailed(NoExpiry));
    }
    return Success((scanned.value.0, expire.value));
  }

  /** The test `__ietf_get_uptodate` applies to a cache file: its expiry has not yet passed. */
  predicate UpToDate(expire: int, now: real) {
    expire as real >= now
  }

  /**
   * The file system and the result after `__ietf_get_uptodate` has looked at
   * `paths` in order: a missing file is skipped, a file that raises ends
   * everything, the first up-to-date file is the answer.
   */
  function UptodateFrom(fs: FileSystem, paths: seq<string>, download: Option<seq<string>>, now: real)
    : (r: (FileSystem, Result<seq<Leap>, LegacyError>))
    decreases |paths|
  {
    if paths == [] then Refreshed(fs, download)
    else if paths[0] !in fs then UptodateFrom(fs, paths[1..], download, now)
    else
      match LegacyLeapfile(fs, paths[0])
      case Failure(e) => (fs, Failure(e))
      case Success(p) => if UpToDate(p.1, now) then (fs, Success(p.0)) else UptodateFrom(fs, paths[1..], download, now)
  }

  /**
   * No cache was up to date: write the download over the user cache (a
   * failed download is ignored), then use the user cache whatever its expiry.
   */
  function Refreshed(fs: FileSystem, download: Option<seq<string>>): (r: (FileSystem, Result<seq<Leap>, LegacyError>))
    ensures download.None? ==> r.0 == fs
    ensures r.1.Success? ==> LegacyLeapfile(r.0, LEAPFILE_USER).Success? && r.1.value == LegacyLeapfile(r.0, LEAPFILE_USER).value.0
  {
    var fs1 := if download.Some? then fs[LEAPFILE_USER := download.value] else fs;
    match LegacyLeapfile(fs1, LEAPFILE_USER)
    case Failure(e) => (fs1, Failure(e))
    case Success(p) => (fs1, Success(p.0))
  }

  /** `__ietf_get_uptodate`: the user cache, then the system cache, then a refreshed user cache. */
  method GetUptodate(fs: FileSystem, download: Option<seq<string>>, now: real)
    returns (fs': FileSystem, r: Result<seq<Leap>, LegacyError>)
    ensures (fs', r) == UptodateFrom(fs, [LEAPFILE_USER, LEAPFILE_SYS], download, now)
  {
    var paths := [LEAPFILE_USER, LEAPFILE_SYS];
    var i := 0;
    while i < |paths|
      invariant 0 <= i <= |paths|
      invariant UptodateFrom(fs, paths[i..], download, now) == UptodateFrom(fs, paths, download, now)
    {
      assert paths[i..][1..] == paths[i + 1..];
      var path := paths[i];
      if path in fs {
        var parsed := ParseLegacyLeapfile(fs, path);
        if parsed.Failure? {
          return fs, Failure(parsed.error);
        }
        if parsed.value.1 as real >= now {
          return fs, Success(parsed.value.0);
        }
      }
      i := i + 1;
    }
    fs' := fs;
    if download.Some? {
      fs' := fs[LEAPFILE_USER := download.value];
    }
    var parsed := ParseLegacyLeapfile(fs', LEAPFILE_USER);
    if parsed.Failure? {
      return fs', Failure(parsed.error);
    }
    return fs', Success(parsed.value.0);
  }

  // ---------------------------------------------------------------- lemmas

  /**
   * The two modules disagree about a table whose expiry is exactly the
   * current time, and only about that one: gpstime.py still uses it, the
   * package counts it as expired.
   */
  lemma ExpiryBoundaryDiffers(expire: int, now: real)
    ensures UpToDate(expire, now) == GpsTimePackage.Expired(expire, now) <==> expire as real == now
  {
  }

  /** An up-to-date user cache is used as it is, with no download. */
  lemma UptodatePrefersUserCache(fs: FileSystem, download: Option<seq<string>>, now: real)
    requires LegacyLeapfile(fs, LEAPFILE_USER).Success?
    requires UpToDate(LegacyLeapfile(fs, LEAPFILE_USER).value.1, now)
    ensures UptodateFrom(fs, [LEAPFILE_USER, LEAPFILE_SYS], download, now)
            == (fs, Success(LegacyLeapfile(fs, LEAPFILE_USER).value.0))
  {
  }

  /** A cache file `__ietf_get_uptodate` passes over: missing, or parsed with an expiry already behind. */
  predicate Stale(fs: FileSystem, path: string, now: real) {
    path !in fs || (LegacyLeapfile(fs, path).Success? && !UpToDate(LegacyLeapfile(fs, path).value.1, now))
  }

  /** A missing or expired user cache is skipped; an up-to-date system cache is then used. */
  lemma UptodateFallsBackToSystemCache(fs: FileSystem, download: Option<seq<string>>, now: real)
    requires Stale(fs, LEAPFILE_USER, now)
    requires LegacyLeapfile(fs, LEAPFILE_SYS).Success?
    requires UpToDate(LegacyLeapfile(fs, LEAPFILE_SYS).value.1, now)
    ensures UptodateFrom(fs, [LEAPFILE_USER, LEAPFILE_SYS], download, now)
            == (fs, Success(LegacyLeapfile(fs, LEAPFILE_SYS).value.0))
  {
    assert [LEAPFILE_USER, LEAPFILE_SYS][1..] == [LEAPFILE_SYS];
    assert UptodateFrom(fs, [LEAPFILE_USER, LEAPFILE_SYS], download, now) == UptodateFrom(fs, [LEAPFILE_SYS], download, now);
  }

  /**
   * When each cache is missing or expired, the loop falls through to the
   * refresh: the download (if any) replaces the user cache, which is then
   * read whatever its expiry.
   */
  lemma UptodateRefreshesWhenStale(fs: FileSystem, download: Option<seq<string>>, now: real)
    requires Stale(fs, LEAPFILE_USER, now) && Stale(fs, LEAPFILE_SYS, now)
    ensures UptodateFrom(fs, [LEAPFILE_USER, LEAPFILE_SYS], download, now) == Refreshed(fs, download)
  {
    assert [LEAPFILE_USER, LEAPFILE_SYS][1..] == [LEAPFILE_SYS];
    assert [LEAPFILE_SYS][1..] == [];
    assert UptodateFrom(fs, [LEAPFILE_USER, LEAPFILE_SYS], download, now) == UptodateFrom(fs, [LEAPFILE_SYS], download, now);
    assert UptodateFrom(fs, [LEAPFILE_SYS], download, now) == UptodateFrom(fs, [], download, now);
  }

  /**
   * When neither cache is usable and the download fails, the failure is
   * ignored and the user cache's table is returned although it has expired.
   */
  lemma UptodateKeepsExpiredUserCache(fs: FileSystem, now: real)
    requires LegacyLeapfile(fs, LEAPFILE_USER).Success?
    requires !UpToDate(LegacyLeapfile(fs, LEAPFILE_USER).value.1, now)
    requires Stale(fs, LEAPFILE_SYS, now)
    ensures UptodateFrom(fs, [LEAPFILE_USER, LEAPFILE_SYS], None, now)
            == (fs, Success(LegacyLeapfile(fs, LEAPFILE_USER).value.0))
  {
    UptodateRefreshesWhenStale(fs, None, now);
  }

  /** With every cache missing or expired, a download becomes the user cache and its table is used. */
  lemma UptodateUsesDownload(fs: FileSystem, download: seq<string>, now: real)
    requires Stale(fs, LEAPFILE_USER, now) && Stale(fs, LEAPFILE_SYS, now)
    ensures var r := UptodateFrom(fs, [LEAPFILE_USER, LEAPFILE_SYS], Some(download), now);
            r.0 == fs[LEAPFILE_USER := download] &&
            (r.1.Success? <==> LegacyLeapfile(r.0, LEAPFILE_USER).Success?) &&
            (r.1.Success? ==> r.1.value == LegacyLeapfile(r.0, LEAPFILE_USER).value.0)
  {
    UptodateRefreshesWhenStale(fs, Some(download), now);
  }

  /** With no cache file and no download, the final parse of the user cache raises. */
  lemma UptodateWithNothingFails(fs: FileSystem, now: real)
    requires LEAPFILE_USER !in fs && LEAPFILE_SYS !in fs
    ensures UptodateFrom(fs, [LEAPFILE_USER, LEAPFILE_SYS], None, now) == (fs, Failure(FileMissing(LEAPFILE_USER)))
  {
    assert [LEAPFILE_USER, LEAPFILE_SYS][1..] == [LEAPFILE_SYS];
    assert [LEAPFILE_SYS][1..] == [];
    assert UptodateFrom(fs, [LEAPFILE_USER, LEAPFILE_SYS], None, now) == UptodateFrom(fs, [LEAPFILE_SYS], None, now);
    assert UptodateFrom(fs, [LEAPFILE_SYS], None, now) == UptodateFrom(fs, [], None, now);
  }

  /** A written-out table with its expiry line reads back whole; without the `#@` line it would raise. */
  lemma LegacyLeapfileOfRendered(fs: FileSystem, path: string, lines: seq<string>, t: seq<Leap>, expire: int)
    requires IsRenderedTable(lines, t, expire)
    requires forall k :: 0 <= k < |t| ==> t[k].instant > Calendar.GPS0
    ensures LegacyLeapfile(fs[path := lines], path) == Success((t, expire))
  {
    ScanRenderedFile(lines, t, expire);
  }
}
