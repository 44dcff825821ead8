# gpstime leap-second engine, in Dafny

A model of the leap-second engine of the Python `gpstime` package. It covers:

- conversion between UNIX and GPS time by counting the leap seconds in a table
  (`unix2gps`, `gps2unix`);
- the three leap-file readers:
  - the IETF `leap-seconds.list` reader of the package and of the older
    single-file module `gpstime.py`;
  - `load_IETF` and `load_NIST` (the tzdata `leapseconds` file) of `gpstime/leaps.py`;
- the policies that pick a leap file and decide whether its data have expired:
  - `__load_leapdata` and `update_leapdata` in the package;
  - `__ietf_get_uptodate` in `gpstime.py`;
  - class `LeapData` in `gpstime/leaps.py`, with its NIST → system IETF →
    user cache fallback chain and `update_local`;
- how `gpstime.parse` routes its argument;
- the version-string parser and the release bump of `release.py`.

Modules:

| file | module | what it holds |
|---|---|---|
| `wrappers.dfy` | `Wrappers` | `Option`, `Result` |
| `python_text.dfy` | `PyText` | the parts of Python's `str` the readers rely on, in Unicode whitespace terms: `strip`, `split()`, `split(sep)`, `join`, `upper`, `lower`, `int()`, `str(int)` |
| `calendar.dfy` | `Calendar` | proleptic Gregorian day numbers (`date.toordinal`), `calendar.timegm`, the month abbreviations of `%b`, the GPS and NTP epochs |
| `conversion.dfy` | `Conversion` | `unix2gps`/`gps2unix`, with their inverse properties and the published leap table |
| `ietf_list.dfy` | `IetfList` | the line loop shared by both `__ietf_parse_leapfile`s, plus a writer for the format used in round trips |
| `gpstime_package.dfy` | `GpsTimePackage` | gpstime/__init__.py: file reading, `is_leapdata_expired`, `__load_leapdata`, `update_leapdata`; the two module globals are class `LeapGlobals` |
| `gpstime_legacy.dfy` | `GpsTimeLegacy` | gpstime.py: its reader and `__ietf_get_uptodate` |
| `leaps.dfy` | `Leaps` | gpstime/leaps.py: `load_IETF`, `load_NIST`, `fetch_ietf_leapfile`, class `LeapData` |
| `parse_dispatch.dfy` | `ParseDispatch` | the two `parse` dispatchers and the `float()` literal grammar |
| `release.dfy` | `Release` | `vers_from_str`, the bump, the release and development versions |

How the outside world is represented:

- Times are integers of seconds. The clock `now` is a `real`, because `time.time()` has a fractional part.
- A file system is a map from path to the file's lines.
- Environment variables, the download and the answer to the release prompt are parameters.
- A download that fails is `None`.
- Where Python raises, the model returns a `Failure` that says which line or file raised.

## Model

| member | source | states |
|---|---|---|
| Conversion.Unix2Gps | gpstime/__init__.py:184-194 | The loop's result is `UnixToGps(t, u)`: `u - GPS0` plus the number of leading entries at or before `u`. gpstime.py:100-106 is the same loop without the float cast. |
| Conversion.Gps2Unix | gpstime/__init__.py:196-206 | The loop, which compares each entry with the value it is decrementing, returns `GpsToUnix(t, g)`. gpstime.py:108-114 is the same loop. |
| Conversion.LeadingCount | gpstime/__init__.py:190-193 | The count the early `break` produces: every entry before it is at or before `u`, and the entry at it is after `u`. |
| Conversion.LeadingCountUnique | gpstime/__init__.py:190-193 | Any count with the break property is the one the loop produces. |
| Conversion.NoneAtOrBefore | gpstime/__init__.py:190-193 | With every instant after `u`, no entry is counted. |
| Conversion.LeadingCountIsCount | gpstime/__init__.py:184-194 | For a sorted table, the leading count equals the number of entries at or before `u`. |
| Conversion.LeadingCountAtMostCount | gpstime/__init__.py:184-194 | For any table, the leading count never exceeds the number of entries at or before `u`. |
| Conversion.LeadingCountMonotone | gpstime/__init__.py:184-194 | A later UNIX time never has fewer leading entries. |
| Conversion.LeadingCountStep | gpstime/__init__.py:184-194 | For a strictly increasing table, one second later adds at most one leap, and adds one exactly when `u + 1` is a leap instant. |
| Conversion.UnixToGpsStrictlyIncreasing | gpstime/__init__.py:184-194 | `unix2gps` is strictly increasing, for every table. |
| Conversion.UnixToGpsCountsLeaps | gpstime/__init__.py:184-194 | For a sorted table, `unix2gps(u) == u - GPS0 + #{entries <= u}`. |
| Conversion.GpsToUnixFromUndoesCount | gpstime/__init__.py:196-206 | Stepping down from `u + LeadingCount(t, u)` lands back on `u`. |
| Conversion.UnixRoundTrip | gpstime/__init__.py:184-206 | `gps2unix(unix2gps(u)) == u` for every UNIX time and every table. |
| Conversion.GpsToUnixFromBrackets | gpstime/__init__.py:196-206 | For a sorted table, the result of the downward scan is bracketed by the counts it skipped. |
| Conversion.GpsToUnixBrackets | gpstime/__init__.py:196-206 | For a sorted table, `unix2gps(gps2unix(g)) <= g < unix2gps(gps2unix(g) + 1)`. |
| Conversion.GpsToUnixIsGreatestPreimage | gpstime/__init__.py:196-206 | For a sorted table, `unix2gps(u) <= g` holds exactly when `u <= gps2unix(g)`: `gps2unix` is the greatest UNIX time not past `g`. |
| Conversion.GpsToUnixMonotone | gpstime/__init__.py:196-206 | `gps2unix` is non-decreasing for a sorted table. |
| Conversion.GpsRoundTrip | gpstime/__init__.py:184-206 | For a strictly increasing table, `unix2gps(gps2unix(g))` is `g` or `g - 1`, and it is `g - 1` exactly when `g` is the GPS second inserted at a leap. |
| Conversion.LeapSecondCollapses | test.py:21-28 | At each leap, two consecutive GPS seconds map to the same UNIX second, and the UNIX second of the leap maps two GPS seconds on. |
| Conversion.PublishedLeapsStrictlyIncreasing | test.py:14-28 | The published table since 1980 is strictly increasing. |
| Conversion.PublishedLeadingCount | test.py:14-28 | Counting in the published table is fixed by the entries around `u`. |
| Conversion.ConversionVector2015 | test.py:13-15 | GPS 1133585676 ↔ UNIX 1449550459. |
| Conversion.ConversionVectorPast | test.py:17-19 | GPS 123456789 ↔ UNIX 439421586. |
| Conversion.ConversionVectorsOnLeap | test.py:21-28 | GPS 425520007 and 425520008 both give UNIX 741484799; UNIX 741484800 gives 425520009; the neighbours convert as the test says. |
| Conversion.RoundTripBeforeLeap | gpstime/__init__.py:196-206 | The GPS second just before a leap's GPS time maps to the UNIX second just before the leap. |
| Conversion.UnixVectorsOnLeap | test.py:21-28 | UNIX 741484798, 741484799 and 741484800 give GPS 425520006, 425520007 and 425520009. |
| Conversion.GpsVectorsOnLeap | test.py:21-28 | GPS 425520006 through 425520009 give UNIX 741484798, 741484799, 741484799 and 741484800. |
| Calendar.DaysInMonth | gpstime/leaps.py:43-48 | Every month has 28 to 31 days. |
| Calendar.NextDate | gpstime/leaps.py:43-48 | The day after a valid date is a valid date. |
| Calendar.MonthNumber | gpstime/leaps.py:43-46 | `%b`: the number of the month whose abbreviation equals the text in lower case, or none when no abbreviation does. |
| Calendar.MonthFrom | gpstime/leaps.py:43-46 | The search behind `MonthNumber` finds the matching abbreviation at or after its start, or shows there is none. |
| Calendar.OrdinalOrigin | gpstime/leaps.py:43-48 | Day 1 is 1 January of year 1, as for `date.toordinal`. |
| Calendar.YearLength | gpstime/leaps.py:43-48 | A year has 366 days exactly when it is a leap year, 365 otherwise. |
| Calendar.MonthsFillYear | gpstime/leaps.py:43-48 | The twelve months add up to the length of the year. |
| Calendar.OrdinalCountsDays | gpstime/leaps.py:43-48 | The day after a date has the next day number. |
| Calendar.EpochOrdinal | gpstime/leaps.py:48 | 1970-01-01 is day 719163, so `timegm` counts from the UNIX epoch. |
| Calendar.TimeGmCountsFromEpoch | gpstime/leaps.py:48 | `calendar.timegm` of a valid date is 86400 seconds per day since 1970-01-01, plus the time of day. |
| Calendar.GpsEpochIsGps0 | gpstime/__init__.py:64-65 | `GPS0 = 315964800` is 1980-01-06T00:00:00Z. |
| Calendar.NtpEpochIsShift | gpstime/leaps.py:20-26 | 2208988800 s is the distance from 1900-01-01 back to the UNIX epoch (the NTP prime epoch, section 6 of RFC 5905). |
| Calendar.InsertedSecondIsNextMidnight | gpstime/leaps.py:42-48 | `timegm` of 23:59:60 on a valid date is midnight of the next day. |
| IetfList.NtpToUnixCountsFromNtpEpoch | gpstime/__init__.py:75-81 | `__ietf_c_to_unix(c)` is `c` seconds after 1900-01-01 in UNIX time, for every integer `c`. gpstime.py:31-36 and `ntp2unix` at gpstime/leaps.py:20-26 are the same shift. |
| IetfList.BlankLineRaises | gpstime/__init__.py:108-115 | An empty or all-whitespace line raises: `line[0]` of an empty line, or `sl[0]` of the empty `split()` of a blank one. |
| IetfList.ScanRows | gpstime/__init__.py:107-119 | A failure names a line that exists. |
| IetfList.ParseIetfLines | gpstime/__init__.py:103-120 | The line loop, with its appends, returns `Scan(lines)`. gpstime.py:51-65 is the same loop. |
| IetfList.ScanFailurePersists | gpstime/__init__.py:107-119 | Once a line has raised, later lines change nothing. |
| IetfList.ScanSucceedsWithoutBadRow | gpstime/__init__.py:107-119 | A successful parse met no line that raises. |
| IetfList.ScanFailsAtFirstBadRow | gpstime/__init__.py:107-119 | The parse fails at line `i` exactly when line `i` raises and no earlier line does. |
| IetfList.ScanEntries | gpstime/__init__.py:113-119 | An entry is in the table exactly when some data row carries it and its instant is after GPS0. |
| IetfList.ScanKeepsOnlyAfterGps0 | gpstime/__init__.py:118-119 | Every kept instant is after `GPS0`. |
| IetfList.ScanExpiry | gpstime/__init__.py:109-110 | The expiry is unset exactly when there is no `#@` line. |
| IetfList.ScanExpiryIsLast | gpstime/__init__.py:109-110 | A set expiry is that of the last `#@` line. |
| IetfList.ScanKeepsFileOrder | gpstime/__init__.py:113-119 | When the data rows rise, the table is strictly increasing: file order is kept. |
| IetfList.NumberIsWord | gpstime/__init__.py:114 | A written integer is one whitespace-free word. |
| IetfList.SplitTwoNumbers | gpstime/__init__.py:114 | A written data row splits into its two numbers. |
| IetfList.ClassifyRenderedLeap | gpstime/__init__.py:113-119 | A written entry reads back as the same instant and offset. |
| IetfList.ClassifyMarkedWord | gpstime/__init__.py:109-110 | A `#@` line whose second field is one word gives the expiry `ntp2unix` of that word, or raises when the word is not an integer. |
| IetfList.ClassifyRenderedExpiry | gpstime/__init__.py:109-110 | A written `#@` line reads back as the same expiry. |
| IetfList.RowsOfRenderedFile | gpstime/__init__.py:107-119 | The written file classifies as one expiry row and then the entries' data rows. |
| IetfList.RenderedLineAt | gpstime/__init__.py:107-119 | Line `i` of a written-out file classifies as row `i` of the table's rows. |
| IetfList.ScanLeapRows | gpstime/__init__.py:107-119 | Those rows parse back to the table and its expiry. |
| IetfList.ScanRenderedFile | gpstime/__init__.py:103-120 | Round trip: parsing a written table whose instants are after GPS0 gives back the table and its expiry. |
| GpsTimePackage.ParseLeapfile | gpstime/__init__.py:97-120 | Returns `LeapfileContents`: a missing file gives `([], 0)`; a file without `#@` expires at 0. |
| GpsTimePackage.LeapfileContentsOfRendered | gpstime/__init__.py:97-120 | A cache file holding a written table reads back as that table and expiry. |
| GpsTimePackage.LeapfileWithoutExpiry | gpstime/__init__.py:103-110 | A file with no `#@` line expires at 0. |
| GpsTimePackage.Candidates | gpstime/__init__.py:138-141 | There is always at least one file to try. |
| GpsTimePackage.LoadFrom | gpstime/__init__.py:142-148 | A fresh result is unexpired and is the contents of one of the candidates. An all-expired result keeps expired data. No candidates leaves the globals alone. |
| GpsTimePackage.UpdateOutcome | gpstime/__init__.py:154-180 | Success leaves unexpired data. `StillExpired` leaves expired data. A failed download changes nothing. A skipped download leaves the files alone. |
| GpsTimePackage.UpdateOutcomeIntended | gpstime/__init__.py:154-180 | Read as documented, success means the named file's table and expiry were loaded and have not expired. |
| GpsTimePackage.ReloadAfterUpdate | gpstime/__init__.py:172-180 | The shared download-then-reload step: success comes from an unexpired file among those reloaded. |
| GpsTimePackage.LeapGlobals.constructor | gpstime/__init__.py:73 | Both globals start as `None`. |
| GpsTimePackage.LeapGlobals.LoadLeapdata | gpstime/__init__.py:125-148 | The loop that reassigns the globals on every file ends with the status and globals `LoadFrom` gives for the candidates. |
| GpsTimePackage.LeapGlobals.UpdateLeapdata | gpstime/__init__.py:154-180 | The files, outcome and globals afterwards are those of `UpdateOutcome`. |
| GpsTimePackage.LoadPicksFirstFresh | gpstime/__init__.py:142-145 | When every earlier candidate has expired, the first unexpired candidate's table is loaded. |
| GpsTimePackage.LoadKeepsLastWhenAllExpired | gpstime/__init__.py:142-148 | When every candidate has expired, the globals hold the last candidate's table and expiry. |
| GpsTimePackage.LoadWithNoCacheFiles | gpstime/__init__.py:103-106 | With no cache file present, the globals become `([], 0)` and the data count as expired. |
| GpsTimePackage.EnvLeapfileOverrides | gpstime/__init__.py:138-141 | A non-empty IETF_LEAPFILE is the only file read. |
| GpsTimePackage.SkipsDownloadSettings | gpstime/__init__.py:174-175 | `False`, and the texts FALSE or NO in any case, skip the download; unset, empty and other texts do not. |
| GpsTimePackage.UpdateWritesTarget | gpstime/__init__.py:172-177 | A download replaces exactly the target file. |
| GpsTimePackage.UpdateIgnoresLeapfile | gpstime/__init__.py:154-180 | The as-written update reloads from the default files, not from the file it was given. |
| GpsTimePackage.UpdateIntendedLoadsLeapfile | gpstime/__init__.py:154-180 | The documented update succeeds exactly when the named file parses with an expiry still ahead. |
| GpsTimeLegacy.LegacyLeapfile | gpstime.py:46-65 | Success is the parse of an existing file that has a `#@` line. A file without one fails, as the unbound `expire` would. |
| GpsTimeLegacy.ParseLegacyLeapfile | gpstime.py:46-65 | The reader returns `LegacyLeapfile`. |
| GpsTimeLegacy.Refreshed | gpstime.py:82-94 | Without a download the files are unchanged. A success is the user cache's table, whatever its expiry. |
| GpsTimeLegacy.GetUptodate | gpstime.py:67-94 | The loop over the two caches with early returns, then the refresh, gives `UptodateFrom` over the user and system caches. |
| GpsTimeLegacy.ExpiryBoundaryDiffers | gpstime.py:79 | gpstime.py's test `expire >= now` (still usable) and the package's `expire <= now` (expired, gpstime/__init__.py:123) both hold exactly when the expiry equals `now`: such a table is used by one and rejected by the other. |
| GpsTimeLegacy.UptodatePrefersUserCache | gpstime.py:76-81 | An up-to-date user cache is used with no download. |
| GpsTimeLegacy.UptodateFallsBackToSystemCache | gpstime.py:76-81 | A missing or expired user cache is skipped, and an up-to-date system cache is used with no download. |
| GpsTimeLegacy.UptodateRefreshesWhenStale | gpstime.py:76-94 | When each cache is missing or parses with an expiry already behind, the result is the refresh: the download, if any, replaces the user cache, which is then read whatever its expiry. |
| GpsTimeLegacy.UptodateKeepsExpiredUserCache | gpstime.py:84-94 | With an expired user cache, a missing or expired system cache and a failed download, the failure is swallowed and the expired user cache's table is returned. |
| GpsTimeLegacy.UptodateUsesDownload | gpstime.py:84-94 | With every cache missing or expired, the download becomes the user cache, and the result is its table exactly when it parses. |
| GpsTimeLegacy.UptodateWithNothingFails | gpstime.py:84-94 | With no cache file and no download, the final read raises for the user cache. |
| GpsTimeLegacy.LegacyLeapfileOfRendered | gpstime.py:46-65 | A written table with its `#@` line reads back whole. |
| Leaps.ScanStep | gpstime/leaps.py:56-73 | Both loaders read their lines one after another, each line's effect depending only on the state so far. |
| Leaps.IetfScanDropsFirstEntry | gpstime/leaps.py:52-74 | `load_IETF` returns `ntp2unix(first field)` of every data row after the first, in file order, so (rows − 1) of them. The expiry is the last `#@` line's, or 0 without one. |
| Leaps.NistScanKeepsEveryEntry | gpstime/leaps.py:29-49 | `load_NIST` returns one instant per data row, in file order. The expiry is the last `#expires` value, unshifted, or 0. |
| Leaps.IetfScanFailurePersists | gpstime/leaps.py:56-73 | Once a line has raised in `load_IETF`, later lines change nothing. |
| Leaps.NistScanFailurePersists | gpstime/leaps.py:33-48 | Once a line has raised in `load_NIST`, later lines change nothing. |
| Leaps.NistScanFailsAtFirstBadLine | gpstime/leaps.py:33-48 | `load_NIST` succeeds exactly when no line raises; a failure names the first line that does. |
| Leaps.IetfFirstEntryUnread | gpstime/leaps.py:66-70 | The first data row is skipped without being read, so a malformed first row passes and a malformed second one raises. |
| Leaps.BlankLinesSkipped | gpstime/leaps.py:58-60 | Both loaders strip each line first, so an empty or all-whitespace line is skipped in both, where the package's reader raises on it. |
| Leaps.IetfExpiresWord | gpstime/leaps.py:61-62 | A `#@` line whose second field is one word gives `ntp2unix` of that word as the expiry, or raises when the word is not an integer. |
| Leaps.LoadIetf | gpstime/leaps.py:52-74 | The loop with its `first` flag returns `IetfLoad(lines)`. |
| Leaps.SmallField | gpstime/leaps.py:43-46 | A `%d`/`%H`/`%M`/`%S` field is one or two digits whose value is in the field's range. |
| Leaps.StrptimeUtc | gpstime/leaps.py:43-48 | An accepted date and time is `timegm` of a valid date with hour 0–23, minute 0–59 and second 0–61. |
| Leaps.PadDigitsValue | gpstime/leaps.py:43-45 | A number that fits in the width reads back from its zero-padded digits. |
| Leaps.PaddedSmallField | gpstime/leaps.py:43-45 | A two-digit `%d`/`%H`/`%M`/`%S` field within its range reads as its value. |
| Leaps.ClockFields | gpstime/leaps.py:42-45 | A written `HH:MM:SS` clock is one word and splits on `:` into its three fields. |
| Leaps.MonthNameReads | gpstime/leaps.py:43-45 | A month name whose ASCII lower case is the table's abbreviation for month `m` is one word, and `%b` reads it as `m`. |
| Leaps.MonthTableReads | gpstime/leaps.py:43-45 | Each abbreviation in the month table reads as its own month, so no two months share one. |
| Leaps.StrptimeReadsFields | gpstime/leaps.py:42-48 | For every year below 10000, valid date, hour 0–23, minute 0–59 and second 0–61, the written fields give `timegm` of exactly that date and clock. |
| Leaps.RenderedNistWords | gpstime/leaps.py:34-42 | A written tzdata leap line is unpadded, starts with `L`, and splits into its seven fields. |
| Leaps.NistDataLine | gpstime/leaps.py:34-46 | An unpadded line that is not a comment is an entry, read from its second to fifth fields. |
| Leaps.NistReadsRenderedLeap | gpstime/leaps.py:34-48 | `load_NIST` reads every written leap line `Leap YEAR Mon DD HH:MM:SS CORR R/S` as the instant of the date and clock it names. |
| Leaps.IetfDataLine | gpstime/leaps.py:58-73 | An unpadded line that is not a comment is an entry, read from its first field. |
| Leaps.IetfReadsRenderedLeap | gpstime/leaps.py:58-73 | `load_IETF` reads every written data row as the instant it was written from. |
| Leaps.NistExpiresWord | gpstime/leaps.py:37-38 | A `#expires` line whose second field is one word gives that word's integer value as the expiry, unshifted, or raises when it is not an integer. |
| Leaps.NistEntryNeedsSixFields | gpstime/leaps.py:41-42 | A NIST entry line with fewer than six fields raises, because the unpacking of `split()[1:6]` needs five values. |
| Leaps.LoadNist | gpstime/leaps.py:29-49 | The loop returns `NistLoad(lines)`. |
| Leaps.LastLeapAgrees | gpstime/leaps.py:20-48 | The NIST row `2016 Dec 31 23:59:60` and the IETF row `3692217600` are the same instant, UNIX 1483228800. |
| Leaps.LastLeapFields | gpstime/leaps.py:42-46 | The fields of that NIST row read as 2016, December, 31, 23, 59, 60. |
| Leaps.LastLeapClock | gpstime/leaps.py:42-46 | `23:59:60` splits into its three fields. |
| Leaps.LastLeapYear | gpstime/leaps.py:43-46 | `2016` is a four-digit year. |
| Leaps.LastLeapDayAndClock | gpstime/leaps.py:43-46 | `31`, `23`, `59` and `60` are accepted as day, hour, minute and second. |
| Leaps.LastLeapMonth | gpstime/leaps.py:43-46 | `Dec` is month 12. |
| Leaps.LastLeapInstant | gpstime/leaps.py:43-48 | 2016-12-31 23:59:60 is UNIX 1483228800, the last entry of the published table. |
| Leaps.TempPath | gpstime/leaps.py:89 | The temporary file is never the destination. |
| Leaps.FetchOutcome | gpstime/leaps.py:77-95 | Success comes exactly when the download parses and the rename may replace the destination: always on POSIX, and on Windows only when there is no file there yet. A success leaves the download at the destination, with the temporary file renamed away. A parsed download whose rename raises is `RenameRaised`. Any failure leaves the destination as it was. A network failure changes nothing. A parse or rename failure leaves the temporary file behind. |
| Leaps.FetchIetfLeapfile | gpstime/leaps.py:77-95 | The write, parse and rename return `FetchOutcome`'s files and result. |
| Leaps.WindowsFetchKeepsOldCache | gpstime/leaps.py:89-94 | With the Windows paths and an existing user cache, a download that parses still fails at the rename. The old cache stays, with the download beside it under the temporary name. |
| Leaps.FetchOutcomeIntended | gpstime/leaps.py:77-95 | With a rename that replaces on every platform, success comes exactly when the download parses. The destination then holds the download and no temporary file remains. |
| Leaps.ExpiredAtAgreesWithPackage | gpstime/leaps.py:123-128 | `LeapData.expired` applies the package's `is_leapdata_expired` test. Data whose expiry is the current instant have already expired, and expired data stay expired as the clock advances. |
| Leaps.LeapData.constructor | gpstime/leaps.py:106-107 | No data, expiring at 0. |
| Leaps.LeapData.Load | gpstime/leaps.py:117-121 | Any loader failure, a missing file included, becomes a RuntimeError naming the path and leaves the fields as they were. A success sets both fields from the loader. |
| Leaps.LeapData.LoadSources | gpstime/leaps.py:102-113 | From the fresh state, the fields and outcome are those of `InitChain`. |
| Leaps.LeapData.Iter | gpstime/leaps.py:130-134 | Raises exactly when the data are missing or empty; otherwise yields them in stored order. |
| Leaps.LeapData.UpdateLocal | gpstime/leaps.py:136-145 | Unexpired non-empty data leave the files and fields as they were. Otherwise it succeeds exactly when the download parses and the rename may replace the user cache, which on Windows needs the cache to be missing. The fields then become the fetched file's, and the files are those with the temporary file renamed over the user cache. A failed download changes no file. A download that does not parse, or whose rename raises, leaves only the temporary file behind. Any failure is a RuntimeError for the user cache and leaves the fields alone. |
| Leaps.InitPrefersFreshNist | gpstime/leaps.py:108-113 | An unexpired, non-empty NIST table settles the chain; no IETF file is read. |
| Leaps.InitFallsBackToUserCache | gpstime/leaps.py:108-113 | Without a NIST or system IETF file (always so on Windows), the user cache is loaded. |
| Leaps.InitRaisesOnBrokenNist | gpstime/leaps.py:108-121 | A NIST file that exists but does not parse makes construction raise. |
| Leaps.InitReplacesExpiredNist | gpstime/leaps.py:110-111 | An expired NIST table is replaced by the system IETF file's. |
| Leaps.InitWithNoFiles | gpstime/leaps.py:102-113 | With no source file, construction ends with no data, expiring at 0. |
| ParseDispatch.PackageParse | gpstime/__init__.py:303-316 | GPS time exactly when the text is a float literal whose value is not zero. The clock exactly when the text is `now` or empty. The text is passed on unchanged. |
| ParseDispatch.LegacyParse | gpstime.py:167-180 | GPS time exactly when `float()` accepts the text. The clock exactly when the text is `now` or empty. The text is passed on unchanged. |
| ParseDispatch.ZeroFloatIsFloatLiteral | gpstime/__init__.py:305-309 | Only text that `float()` accepts is tested for a zero value. |
| ParseDispatch.SignIgnored | gpstime/__init__.py:305-306 | A `+` or `-` in front of a number changes neither whether `float()` accepts it nor whether its value is zero. |
| ParseDispatch.PackageParseIntended | gpstime/__init__.py:291-316 | Every float-castable string goes to GPS time, and only the string `now` (or an empty string) to the clock. |
| ParseDispatch.NowIsNotFloat | gpstime/__init__.py:303-312 | `now` is not a float literal, so the clock branch is reachable. |
| ParseDispatch.UnsignedBody | gpstime/__init__.py:305-306 | Unpadded text without a sign is its own body for `float()`. |
| ParseDispatch.EmptyMeansNow | gpstime/__init__.py:303-304 | An empty argument means now, in both dispatchers. |
| ParseDispatch.DispatchersDifferOnlyAtZero | gpstime.py:161-180 | The package and gpstime.py route a string differently exactly when it is a float literal whose value is zero. |
| ParseDispatch.IntendedMatchesLegacy | gpstime.py:161-180 | The documented package dispatcher routes every string as gpstime.py does. |
| ParseDispatch.IntegerText | gpstime/__init__.py:305-309 | The decimal text of a natural number is a float literal, and a zero one exactly when the number is 0. |
| ParseDispatch.LowerOfDigits | gpstime/__init__.py:305-306 | Lower-casing leaves digits alone. |
| ParseDispatch.PositiveIntegersAreGps | gpstime/__init__.py:305-310 | A positive integer string is GPS time in both dispatchers. |
| ParseDispatch.ZeroIsNotGpsInPackage | gpstime/__init__.py:305-315 | `"0"` goes to the date parser in the package and to GPS time in gpstime.py and in the documented dispatcher. |
| PyText.Strip | gpstime/leaps.py:34 | `strip()` leaves no whitespace at either end of its result. |
| PyText.StripDropsSurroundingSpace | gpstime/leaps.py:34 | `strip()` keeps a middle slice: everything cut off on either side is whitespace. Text made only of whitespace strips to the empty string, and only such text does. |
| PyText.StripUnpadded | gpstime/leaps.py:34 | `strip()` leaves unpadded text alone. |
| PyText.Split | gpstime/__init__.py:114 | `split()` gives non-empty words without whitespace. |
| PyText.SplitWordThenRest | gpstime/__init__.py:114 | `split()` of a word, some whitespace and a rest is the word followed by the rest's words. |
| PyText.SplitTabJoined | gpstime/leaps.py:42 | Tab-separated words have no surrounding whitespace, and `split()` gives the words back. |
| PyText.WordSplitsToItself | gpstime/__init__.py:109-110 | A single word splits into itself alone. |
| PyText.SplitOn | release.py:40-44 | `split(sep)` gives at least one part, none containing `sep`, and joining them gives the text back. |
| PyText.SplitOnJoin | release.py:40-44 | `split(sep)` undoes `sep.join` when no part holds `sep`. |
| PyText.NoSplitWithout | release.py:40-41 | Text without the separator splits into itself alone. |
| PyText.Lower | gpstime/leaps.py:43-46 | ASCII `lower()`: the length is kept, each ASCII capital becomes its small letter, and every other character is kept. This decides `%b` as `_strptime` does. |
| PyText.Upper | gpstime/__init__.py:174 | ASCII `upper()`: the length is kept, each ASCII small letter becomes its capital, and every other character is kept. |
| PyText.NatToString | release.py:105 | `str(n)` is a run of digits, starting with 0 only for 0. |
| PyText.IntToString | release.py:105 | `str(i)` is non-empty, unpadded, and made of digits and `-`. |
| PyText.NatToStringValue | release.py:105 | The digits of `str(n)` have value `n`. |
| PyText.IntToStringChars | release.py:105 | Every character of `str(i)` is a digit or `-`. |
| PyText.PyIntOfIntToString | release.py:47 | `int(str(i)) == i` for every integer. |
| PyText.PyIntIgnoresPadding | gpstime/__init__.py:81 | `int()` ignores whitespace around the number. |
| PyText.PyIntOfDigits | gpstime/__init__.py:81 | `int()` reads a run of digits as its decimal value. |
| PyText.PyIntOfSignedDigits | gpstime/__init__.py:81 | `int()` reads `-` before digits as the negated value and `+` as the value. |
| PyText.PyIntRejectsBlank | gpstime/__init__.py:81 | `int()` of empty or all-whitespace text raises. |
| PyText.BlankSplitsToNothing | gpstime/__init__.py:114 | `split()` of all-whitespace text has no words. |
| Release.VersFromStr | release.py:26-47 | Succeeds exactly when the part before the first `+` has three dot-separated integer fields. Another number of fields fails with `CouldNotParse`. The build is empty exactly when there is no `+`. |
| Release.Bump | release.py:93-103 | The build suffix is dropped. |
| Release.ReleaseTarget | release.py:91-105 | Without a positional `release` (left `None`), the current numbers are released as they are; with one, the bump it names applies. The build is dropped either way. |
| Release.PlanRelease | release.py:91-119 | Every outcome: an unparsable current version gives `BadVersion` with the parser's error; otherwise an answer other than `yes` aborts; otherwise a target already among the tags gives `TagExists`; otherwise the target and the target plus `+dev0`. |
| Release.SetVersion | release.py:86-89 | A non-empty `--set` writes the string unchanged exactly when `vers_from_str` accepts it, and fails with its error otherwise. |
| Release.Main | release.py:68-119 | A non-empty `--set` is only checked and written; an absent or empty one leads to the release steps, which succeed exactly when the release plan does and write its two versions. |
| Release.EmptySetReleasesUnbumped | release.py:86-105 | An empty `--set` on a development version `M.m.r+dev0` is not refused: it releases `M.m.r` unchanged and writes `M.m.r+dev0` again. |
| Release.FormattedFields | release.py:105 | `'{}.{}.{}'.format` text has no `+`, splits on `.` into the three numbers' texts, and each reads back as its number. |
| Release.IntTextHasNoSeparator | release.py:40-44 | `str(i)` contains neither `.` nor `+`. |
| Release.NumbersReadBack | release.py:47 | `int(str(x)) == x` for each of the three numbers. |
| Release.VersionRoundTrip | release.py:47 | `vers_from_str('{}.{}.{}'.format(M, m, r)) == (M, m, r, '')` for all integers. |
| Release.BuildIsFirstSegment | release.py:39-42 | With a build suffix, the build is `+` and the text up to the next `+`; later segments are dropped. |
| Release.PlainBuild | release.py:39-47 | A build suffix without a second `+` reads back whole. |
| Release.TwoFieldsRefused | release.py:43-46 | `1.2` is refused. |
| Release.BumpIsNextRelease | release.py:95-103 | The bump is later, raises exactly the component its kind names, and is the earliest such version among versions with non-negative numbers. |
| Release.ReleaseVersionsReadBack | release.py:105-139 | The release version reads back as the bumped version, and the development version as the same with build `+dev0`. |
| Release.DevBuild | release.py:139 | `version + '+dev0'` reads back with build `+dev0`. |
| Release.ReleaseFromDevVersion | release.py:93-105 | A development version releases as the version its numbers name, raised by the kind; the build is forgotten. |

## Left out

- Network, file and clock access. `requests`, `urllib`, `open`, `os.rename`, `os.path.exists` and `time.time()` become the file-system map, the `download` parameter and `now`.
- `os.makedirs` of the cache directory is left out: creating a directory has no counterpart in a map of files.
- `os.path.expanduser`/`expandvars`: paths are kept as written (`~/...`, `%APPDATA%/...`).
- The choice between the POSIX and Windows paths is `os.name`. The model has both sets of paths, together with each platform's `os.rename` (replace on POSIX, FileExistsError on Windows), and a `LeapPaths` value picks one.
- Environment variables `IETF_LEAPFILE` and `IETF_UPDATE` are parameters.
- Two downloads write a `.tmp` file and rename it over the target: `__ietf_retrieve` in the package, and `__ietf_update_file` in gpstime.py (gpstime.py:38-44). GpsTimePackage.UpdateOutcome and GpsTimeLegacy.Refreshed write the target directly, so the transient temporary file is not modelled there. `fetch_ietf_leapfile` in gpstime/leaps.py keeps the temporary file in the model.
- GpsTimePackage.UpdateOutcome / GpsTimeLegacy.Refreshed: the download replaces an existing target, which is what `os.rename` (gpstime/__init__.py:95, gpstime.py:44) does on POSIX. On Windows that rename raises FileExistsError when the target exists. Those modules' default paths are POSIX ones, so the Windows behaviour is modelled only for gpstime/leaps.py.
- GpsTimePackage.UpdateOutcome: `update` is None, False or a string. A truthy value of another type, such as True, makes `update.upper()` (gpstime/__init__.py:174) raise AttributeError before any download. No caller passes one, and the model has no setting for it. Other falsy values, such as 0, behave as the unset setting does.
- gpstime.py downloads with `urllib.urlretrieve`, which Python 3 no longer provides. Under Python 3 that call always raises inside the bare `except`, which is the model's failed download (`None`). The model still allows a successful download, as under Python 2.
- Float arithmetic is left out: times are integers.
  - The float cast in the package's `unix2gps`/`gps2unix`, `dt2ts`, and `fromgps`'s microsecond rounding are not modelled.
  - `float()` literals are recognised, but their value is only examined for being zero.
  - IsFloatLiteral does not model underscores in numeric literals or non-ASCII digits.
  - IsZeroFloat does not model a non-zero literal that underflows to 0.0 (such as `1e-400`).
- PyText.Upper / PyText.Lower map ASCII letters only, while Python's `str.upper()`/`str.lower()` use full Unicode case mapping: `'ß'.upper()` is `'SS'`, and `'ſ'.upper()` is `'S'`. So GpsTimePackage.SkipsDownload does not skip the download for settings such as `falſe`, which `update_leapdata` treats as FALSE. The `%b` month lookup is unaffected, because no character outside ASCII lower-cases into a letter of a month abbreviation.
- PyText.PyInt does not model underscores or non-ASCII decimal digits, which Python's `int()` also accepts.
- Leaps.StrptimeUtc does not model non-ASCII digits, which `strptime`'s `\d` also matches. The fields come from `split()`, so the single-space separators of the format always match.
- Timezones, `strftime`/`iso`, the `datetime` subclass and `fromdatetime` are left out.
- The external date parsers (GNU `date`, `dateutil`) are left out. They appear only as the `External` route.
- Warnings and messages on standard error are left out.
- The `__main__` blocks and gpstime/__main__.py are left out.
- `tconvert`, `gpsnow` and the `gpstime` class methods other than `parse`'s dispatch are left out.
- The import-time calls (`__load_leapdata()`, `LEAPDATA = __ietf_get_uptodate()`, `LEAPDATA = LeapData()`) are not modelled as such. They are the model's operations applied to the current file system.
- In release.py, git, `subprocess`, `input`, `write_vfile` and the build of distributions are left out. The answer to the prompt and the existing tags are parameters.
- Release.Main: argparse's own refusals (neither or both of `--set` and `release`, or an unknown release kind) are left out. The parameters are what argparse delivers once it accepts the command line.
- The leap second itself (`23:59:60`) is left out as an input to the conversions. It is a known limitation of the package (gpstime/__init__.py:34-37); only the instant the NIST reader computes for it is modelled.
- `load_NIST` reads the `correction` field and `load_IETF` the offset field without using them. The model does the same: it requires the fields to be present, and the IETF reader does not check the offset.

## Findings

| source | as written | input that shows it | evidently intended | confidence | as-written member | corrected member |
|---|---|---|---|---|---|---|
| gpstime/__init__.py:305-309 | `if gps:` tests the float's truth value, so a string whose value is zero is not taken as GPS time | `parse("0")` goes to GNU `date` instead of `fromgps(0)` | every string that can be cast to float is GPS time, as the docstring says and gpstime.py does | not executed | ParseDispatch.ZeroIsNotGpsInPackage | ParseDispatch.PackageParseIntended |
| gpstime/__init__.py:154-180 | `update_leapdata` calls `__load_leapdata(leapfile)`, but `__load_leapdata` ignores its argument and reloads from IETF_LEAPFILE or the default caches | leapfile `/tmp/leap-seconds.list` holding a table that expires at 10, update False, no cache files, now 1.0: raises "expired" | the data are loaded from the specified file, as the docstring says | not executed | GpsTimePackage.UpdateIgnoresLeapfile | GpsTimePackage.UpdateIntendedLoadsLeapfile |
| gpstime/leaps.py:94 | `os.rename(tmp, path)` moves the parsed download over the user cache, but on Windows `os.rename` raises FileExistsError when `path` exists | Windows paths, an expired user cache, a download that parses: `update_local` raises RuntimeError and leaves the stale cache and a `.tmp` file | the parsed download replaces the cache on every platform (`os.replace`), as the docstrings of `fetch_ietf_leapfile` and `update_local` say | not executed | Leaps.WindowsFetchKeepsOldCache | Leaps.FetchOutcomeIntended |
