/**
 * gpstime/leaps.py: the two leap-file loaders (the tzdata `leapseconds` file
 * in the NIST format and the IETF `leap-seconds.list`), the download that
 * parses before it replaces the user cache, and class `LeapData`, which
 * picks a source at construction and can refresh the user cache later.
 *
 * Unlike the older parsers, both loaders strip each line and skip blank
 * ones; they keep leap instants only (the offset and correction fields are
 * read past), and the IETF loader drops the first data row, the 1972
 * TAI-UTC starting offset, which is not a leap second.
 */
module Leaps {
  import opened Wrappers
  import opened PyText
  import opened Calendar
  import opened IetfList
  import GpsTimePackage
  import Conversion

  const LEAPFILE_NIST: string := "/usr/share/zoneinfo/leapseconds"
  const LEAPFILE_IETF: string := "/usr/share/zoneinfo/leap-seconds.list"
  /** The user cache, before `~` (or `%APPDATA%` on Windows) is expanded. */
  const LEAPFILE_IETF_USER: string := "~/.cache/gpstime/leap-seconds.list"
  const LEAPFILE_IETF_USER_NT: string := "%APPDATA%/gpstime/leap-seconds.list"

  /**
   * The three sources, and whether `os.rename` replaces an existing target
   * on the platform: it does on POSIX, while on Windows it raises
   * FileExistsError. On Windows there is no NIST or system IETF file.
   */
  datatype LeapPaths = LeapPaths(nist: Option<string>, ietf: Option<string>, user: string, renameReplaces: bool)

  const POSIX_PATHS: LeapPaths := LeapPaths(Some(LEAPFILE_NIST), Some(LEAPFILE_IETF), LEAPFILE_IETF_USER, true)
  const NT_PATHS: LeapPaths := LeapPaths(None, None, LEAPFILE_IETF_USER_NT, false)

  /** What one stripped line means to a loader; `None` where reading its fields raises. */
  datatype LeapsLine = Skip | ExpiresLine(expires: Option<int>) | EntryLine(instant: Option<int>)

  // ---------------------------------------------------------------- the two scans

  /** The loaders' state after some lines: the instants so far and the expiry. */
  datatype Loaded = Loaded(data: seq<int>, expires: int)

  /** The entries of a file's lines, in file order. */
  function Entries(rows: seq<LeapsLine>): (r: seq<Option<int>>)
    ensures |r| <= |rows|
  {
    if rows == [] then []
    else
      var last := rows[|rows| - 1];
      Entries(rows[..|rows| - 1]) + (if last.EntryLine? then [last.instant] else [])
  }

  /** The expiry of the last expiry line, or 0 when there is none. */
  function LastExpiry(rows: seq<LeapsLine>): int {
    if rows == [] then 0
    else
      var last := rows[|rows| - 1];
      if last.ExpiresLine? && last.expires.Some? then last.expires.value else LastExpiry(rows[..|rows| - 1])
  }

  /**
   * `load_IETF`'s loop: each expiry line sets the expiry, the first entry is
   * passed over unread, each later one adds its instant. The flag records
   * whether the first entry is still to come. A failure is the index of the
   * line that raised.
   */
  function IetfScan(rows: seq<LeapsLine>): Result<(Loaded, bool), nat>
    decreases |rows|
  {
    if rows == [] then Success((Loaded([], 0), true))
    else
      var n := |rows| - 1;
      match IetfScan(rows[..n])
      case Failure(i) => Failure(i)
      case Success(st) => IetfStep(st, rows[n], n)
  }

  /** One line of `load_IETF`, the `n`-th. */
  function IetfStep(st: (Loaded, bool), row: LeapsLine, n: nat): Result<(Loaded, bool), nat> {
    match row
    case Skip => Success(st)
    case ExpiresLine(e) => if e.None? then Failure(n) else Success((st.0.(expires := e.value), st.1))
    case EntryLine(v) =>
      if st.1 then Success((st.0, false))
      else if v.None? then Failure(n)
      else Success((st.0.(data := st.0.data + [v.value]), false))
  }

  /** `load_NIST`'s loop: each expiry line sets the expiry, each entry adds its instant. */
  function NistScan(rows: seq<LeapsLine>): Result<Loaded, nat>
    decreases |rows|
  {
    if rows == [] then Success(Loaded([], 0))
    else
      var n := |rows| - 1;
      match NistScan(rows[..n])
      case Failure(i) => Failure(i)
      case Success(st) => NistStep(st, rows[n], n)
  }

  /** One line of `load_NIST`, the `n`-th. */
  function NistStep(st: Loaded, row: LeapsLine, n: nat): Result<Loaded, nat> {
    match row
    case Skip => Success(st)
    case ExpiresLine(e) => if e.None? then Failure(n) else Success(st.(expires := e.value))
    case EntryLine(v) => if v.None? then Failure(n) else Success(st.(data := st.data + [v.value]))
  }

  /** The scans read their lines one after another. */
  lemma ScanStep(rows: seq<LeapsLine>, i: nat)
    requires i < |rows|
    ensures IetfScan(rows[..i + 1]) == (if IetfScan(rows[..i]).Failure? then IetfScan(rows[..i])
                                        else IetfStep(IetfScan(rows[..i]).value, rows[i], i))
    ensures NistScan(rows[..i + 1]) == (if NistScan(rows[..i]).Failure? then NistScan(rows[..i])
                                        else NistStep(NistScan(rows[..i]).value, rows[i], i))
  {
    assert rows[..i + 1][..i] == rows[..i];
  }

  /**
   * What `load_IETF` returns: the instants of every entry after the first,
   * in file order, and the expiry of the last `#@` line (0 without one).
   */
  lemma {:induction false} IetfScanDropsFirstEntry(rows: seq<LeapsLine>)
    requires IetfScan(rows).Success?
    ensures var st := IetfScan(rows).value; var e := Entries(rows);
            (st.1 <==> e == []) &&
            st.0.expires == LastExpiry(rows) &&
            (e == [] ==> st.0.data == []) &&
            (e != [] ==> |st.0.data| == |e| - 1 && forall k :: 0 <= k < |st.0.data| ==> e[k + 1] == Some(st.0.data[k]))
    decreases |rows|
  {
    if rows != [] {
      var n := |rows| - 1;
      var p := rows[..n];
      assert IetfScan(p).Success?;
      IetfScanDropsFirstEntry(p);
      var st := IetfScan(p).value;
      var e := Entries(p);
      assert IetfScan(rows) == IetfStep(st, rows[n], n);
      if rows[n].EntryLine? {
        assert Entries(rows) == e + [rows[n].instant];
        if !st.1 {
          var v := rows[n].instant.value;
          assert IetfScan(rows).value.0.data == st.0.data + [v];
        }
      } else {
        assert Entries(rows) == e;
      }
    }
  }

  /** What `load_NIST` returns: the instant of every entry in file order, and the last expiry (0 without one). */
  lemma {:induction false} NistScanKeepsEveryEntry(rows: seq<LeapsLine>)
    requires NistScan(rows).Success?
    ensures var st := NistScan(rows).value; var e := Entries(rows);
            st.expires == LastExpiry(rows) &&
            |st.data| == |e| && forall k :: 0 <= k < |st.data| ==> e[k] == Some(st.data[k])
    decreases |rows|
  {
    if rows != [] {
      var n := |rows| - 1;
      var p := rows[..n];
      assert NistScan(p).Success?;
      NistScanKeepsEveryEntry(p);
      var e := Entries(p);
      if rows[n].EntryLine? {
        assert Entries(rows) == e + [rows[n].instant];
      } else {
        assert Entries(rows) == e;
      }
    }
  }

  lemma {:induction false} IetfScanFailurePersists(rows: seq<LeapsLine>, j: nat)
    requires j <= |rows| && IetfScan(rows[..j]).Failure?
    ensures IetfScan(rows) == IetfScan(rows[..j])
    decreases |rows| - j
  {
    if j == |rows| {
      assert rows[..j] == rows;
    } else {
      assert rows[..j + 1][..j] == rows[..j];
      IetfScanFailurePersists(rows, j + 1);
    }
  }

  lemma {:induction false} NistScanFailurePersists(rows: seq<LeapsLine>, j: nat)
    requires j <= |rows| && NistScan(rows[..j]).Failure?
    ensures NistScan(rows) == NistScan(rows[..j])
    decreases |rows| - j
  {
    if j == |rows| {
      assert rows[..j] == rows;
    } else {
      assert rows[..j + 1][..j] == rows[..j];
      NistScanFailurePersists(rows, j + 1);
    }
  }

  /** A line whose fields raise when read. */
  predicate Raises(row: LeapsLine) {
    row == ExpiresLine(None) || row == EntryLine(None)
  }

  /** `load_NIST` raises exactly when some line raises, and it names the first such line. */
  lemma {:induction false} NistScanFailsAtFirstBadLine(rows: seq<LeapsLine>)
    ensures NistScan(rows).Success? <==> forall k :: 0 <= k < |rows| ==> !Raises(rows[k])
    ensures NistScan(rows).Failure? ==>
              var i := NistScan(rows).error;
              i < |rows| && Raises(rows[i]) && forall k :: 0 <= k < i ==> !Raises(rows[k])
    decreases |rows|
  {
    if rows != [] {
      var n := |rows| - 1;
      NistScanFailsAtFirstBadLine(rows[..n]);
      assert forall k :: 0 <= k < n ==> rows[..n][k] == rows[k];
    }
  }

  /**
   * `load_IETF` never reads the first entry, so a malformed first data
   * line is passed over; a later line that raises still ends the load.
   */
  lemma IetfFirstEntryUnread()
    ensures IetfScan([EntryLine(None)]) == Success((Loaded([], 0), false))
    ensures IetfScan([EntryLine(None), EntryLine(None)]) == Failure(1)
  {
    assert [EntryLine(None)][..0] == [];
    assert [EntryLine(None), EntryLine(None)][..1] == [EntryLine(None)];
  }

  // ---------------------------------------------------------------- load_IETF

  /** How `load_IETF` reads one line. */
  function ClassifyIetf(raw: string): LeapsLine {
    var line := Strip(raw);
    if line == [] then Skip
    else if |line| >= 2 && line[..2] == "#@" then
      var f := Split(line);
      ExpiresLine(if |f| >= 2 && PyInt(f[1]).Some? then Some(NtpToUnix(PyInt(f[1]).value)) else None)
    else if line[0] == '#' then Skip
    else
      var f := Split(line);
      EntryLine(if |f| >= 2 && PyInt(f[0]).Some? then Some(NtpToUnix(PyInt(f[0]).value)) else None)
  }

  function IetfRows(lines: seq<string>): (rows: seq<LeapsLine>)
    ensures |rows| == |lines|
    ensures forall i :: 0 <= i < |lines| ==> rows[i] == ClassifyIetf(lines[i])
  {
    seq(|lines|, i requires 0 <= i < |lines| => ClassifyIetf(lines[i]))
  }

  /** What `load_IETF` makes of a file: its table and expiry, or the index of the line that raised. */
  function IetfLoad(lines: seq<string>): Result<Loaded, nat> {
    match IetfScan(IetfRows(lines))
    case Failure(i) => Failure(i)
    case Success(st) => Success(st.0)
  }

  method LoadIetf(lines: seq<string>) returns (r: Result<Loaded, nat>)
    ensures r == IetfLoad(lines)
  {
    ghost var rows := IetfRows(lines);
    var data: seq<int> := [];
    var expires := 0;
    var first := true;
    var i := 0;
    while i < |lines|
      invariant 0 <= i <= |lines|
      invariant IetfScan(rows[..i]) == Success((Loaded(data, expires), first))
    {
      ScanStep(rows, i);
      var line := Strip(lines[i]);
      if line == [] {
        assert rows[i] == Skip;
      } else if |line| >= 2 && line[..2] == "#@" {
        var f := Split(line);
        if |f| < 2 || PyInt(f[1]).None? {
          assert rows[i] == ExpiresLine(None);
          IetfScanFailurePersists(rows, i + 1);
          return Failure(i);
        }
        expires := NtpToUnix(PyInt(f[1]).value);
        assert rows[i] == ExpiresLine(Some(expires));
      } else if line[0] == '#' {
        assert rows[i] == Skip;
      } else if first {
        assert rows[i].EntryLine?;
        first := false;
      } else {
        var f := Split(line);
        if |f| < 2 || PyInt(f[0]).None? {
          assert rows[i] == EntryLine(None);
          IetfScanFailurePersists(rows, i + 1);
          return Failure(i);
        }
        assert rows[i] == EntryLine(Some(NtpToUnix(PyInt(f[0]).value)));
        data := data + [NtpToUnix(PyInt(f[0]).value)];
      }
      i := i + 1;
    }
    assert rows[..i] == rows;
    return Success(Loaded(data, expires));
  }

  // ---------------------------------------------------------------- load_NIST

  /** A one- or two-digit `strptime` field (`%d`, `%H`, `%M`, `%S`) whose value lies in `lo..hi`. */
  function SmallField(s: string, lo: int, hi: int): (r: Option<int>)
    ensures r.Some? ==> lo <= r.value <= hi
  {
    if 1 <= |s| <= 2 && AllDigits(s) && lo <= DigitsValue(s) <= hi then Some(DigitsValue(s)) else None
  }

  /**
   * `calendar.timegm(time.strptime(year + ' ' + mon + ' ' + day + ' ' + hms,
   * '%Y %b %d %H:%M:%S'))`: a four-digit year, a month abbreviation in any
   * case, a day of that month, and a clock with seconds up to 61.
   */
  function StrptimeUtc(year: string, mon: string, day: string, hms: string): (r: Option<int>)
    ensures r.Some? ==> exists y, m, d, hh, mm, ss ::
              ValidDate(y, m, d) && 0 <= hh <= 23 && 0 <= mm <= 59 && 0 <= ss <= 61 &&
              r.value == TimeGm(y, m, d, hh, mm, ss)
  {
    var clock := SplitOn(hms, ':');
    if |year| == 4 && AllDigits(year) && MonthNumber(mon).Some? && SmallField(day, 1, 31).Some? && |clock| == 3 then
      var y := DigitsValue(year);
      var m := MonthNumber(mon).value;
      var d := SmallField(day, 1, 31).value;
      var hh := SmallField(clock[0], 0, 23);
      var mm := SmallField(clock[1], 0, 59);
      var ss := SmallField(clock[2], 0, 61);
      if ValidDate(y, m, d) && hh.Some? && mm.Some? && ss.Some? then
        Some(TimeGm(y, m, d, hh.value, mm.value, ss.value))
      else None
    else None
  }

  /** How `load_NIST` reads one line: fields 1 to 4 of an entry are the date and time of the leap. */
  function ClassifyNist(raw: string): LeapsLine {
    var line := Strip(raw);
    if line == [] then Skip
    else if |line| >= 8 && line[..8] == "#expires" then
      var f := Split(line);
      ExpiresLine(if |f| >= 2 then PyInt(f[1]) else None)
    else if line[0] == '#' then Skip
    else
      var f := Split(line);
      EntryLine(if |f| >= 6 then StrptimeUtc(f[1], f[2], f[3], f[4]) else None)
  }

  /** Both loaders strip each line first, so an empty or all-whitespace line is skipped, not raised on. */
  lemma BlankLinesSkipped(raw: string)
    requires forall i :: 0 <= i < |raw| ==> IsSpace(raw[i])
    ensures ClassifyIetf(raw) == Skip && ClassifyNist(raw) == Skip
  {
    StripDropsSurroundingSpace(raw);
  }

  /** A `#@` line whose second field is one word gives `ntp2unix` of it, or raises when the word is not an integer. */
  lemma IetfExpiresWord(raw: string, w: string)
    requires raw == "#@" + "\t" + w
    requires w != [] && NoSpace(w)
    ensures ClassifyIetf(raw) == ExpiresLine(if PyInt(w).Some? then Some(NtpToUnix(PyInt(w).value)) else None)
  {
    var m := "#@";
    assert raw[0] == '#' && raw[|raw| - 1] == w[|w| - 1];
    StripUnpadded(raw);
    assert raw[..2] == m;
    assert m != [] && NoSpace(m);
    SplitWordThenRest(m, "\t", w);
    WordSplitsToItself(w);
  }

  /** A `#expires` line whose second field is one word gives that word's integer value, unshifted, or raises. */
  lemma NistExpiresWord(raw: string, w: string)
    requires raw == "#expires" + "\t" + w
    requires w != [] && NoSpace(w)
    ensures ClassifyNist(raw) == ExpiresLine(PyInt(w))
  {
    var m := "#expires";
    assert raw[0] == '#' && raw[|raw| - 1] == w[|w| - 1];
    StripUnpadded(raw);
    assert raw[..8] == m;
    assert m != [] && NoSpace(m);
    SplitWordThenRest(m, "\t", w);
    WordSplitsToItself(w);
  }

  /** A NIST entry with fewer than six fields raises: the unpacking of `split()[1:6]` needs five. */
  lemma NistEntryNeedsSixFields(raw: string)
    requires Strip(raw) != [] && Strip(raw)[0] != '#'
    requires |Split(Strip(raw))| < 6
    ensures ClassifyNist(raw) == EntryLine(None)
  {
  }

  function NistRows(lines: seq<string>): (rows: seq<LeapsLine>)
    ensures |rows| == |lines|
    ensures forall i :: 0 <= i < |lines| ==> rows[i] == ClassifyNist(lines[i])
  {
    seq(|lines|, i requires 0 <= i < |lines| => ClassifyNist(lines[i]))
  }

  function NistLoad(lines: seq<string>): Result<Loaded, nat> {
    NistScan(NistRows(lines))
  }

  method LoadNist(lines: seq<string>) returns (r: Result<Loaded, nat>)
    ensures r == NistLoad(lines)
  {
    ghost var rows := NistRows(lines);
    var data: seq<int> := [];
    var expires := 0;
    var i := 0;
    while i < |lines|
      invariant 0 <= i <= |lines|
      invariant NistScan(rows[..i]) == Success(Loaded(data, expires))
    {
      ScanStep(rows, i);
      var line := Strip(lines[i]);
      if line == [] {
        assert rows[i] == Skip;
      } else if |line| >= 8 && line[..8] == "#expires" {
        var f := Split(line);
        if |f| < 2 || PyInt(f[1]).None? {
          assert rows[i] == ExpiresLine(None);
          NistScanFailurePersists(rows, i + 1);
          return Failure(i);
        }
        expires := PyInt(f[1]).value;
        assert rows[i] == ExpiresLine(Some(expires));
      } else if line[0] == '#' {
        assert rows[i] == Skip;
      } else {
        var f := Split(line);
        if |f| < 6 {
          assert rows[i] == EntryLine(None);
          NistScanFailurePersists(rows, i + 1);
          return Failure(i);
        }
        var st := StrptimeUtc(f[1], f[2], f[3], f[4]);
        assert rows[i] == EntryLine(st);
        if st.None? {
          NistScanFailurePersists(rows, i + 1);
          return Failure(i);
        }
        data := data + [st.value];
      }
      i := i + 1;
    }
    assert rows[..i] == rows;
    return Success(Loaded(data, expires));
  }

  /**
   * The last leap second so far, written `Leap 2016 Dec 31 23:59:60` in the
   * NIST file and `3692217600 37` in the IETF file, is the same instant in
   * both readings: UNIX 1483228800, midnight at the start of 2017.
   */
  lemma LastLeapAgrees()
    ensures StrptimeUtc("2016", "Dec", "31", "23:59:60") == Some(1483228800)
    ensures NtpToUnix(3692217600) == 1483228800
  {
    LastLeapFields();
    LastLeapInstant();
  }

  lemma LastLeapFields()
    ensures SplitOn("23:59:60", ':') == ["23", "59", "60"]
    ensures AllDigits("2016") && DigitsValue("2016") == 2016
    ensures MonthNumber("Dec") == Some(12)
    ensures SmallField("31", 1, 31) == Some(31)
    ensures SmallField("23", 0, 23) == Some(23)
    ensures SmallField("59", 0, 59) == Some(59)
    ensures SmallField("60", 0, 61) == Some(60)
  {
    LastLeapClock();
    LastLeapYear();
    LastLeapMonth();
    LastLeapDayAndClock();
  }

  lemma LastLeapDayAndClock()
    ensures SmallField("31", 1, 31) == Some(31)
    ensures SmallField("23", 0, 23) == Some(23)
    ensures SmallField("59", 0, 59) == Some(59)
    ensures SmallField("60", 0, 61) == Some(60)
  {
    TwoDigits("31", 31);
    TwoDigits("23", 23);
    TwoDigits("59", 59);
    TwoDigits("60", 60);
  }

  /** The value of a two-digit field. */
  lemma TwoDigits(s: string, v: int)
    requires |s| == 2 && IsDigit(s[0]) && IsDigit(s[1]) && v == DigitValue(s[0]) * 10 + DigitValue(s[1])
    ensures AllDigits(s) && DigitsValue(s) == v
  {
    assert PrefixValue(s, 1) == DigitValue(s[0]);
  }

  lemma LastLeapClock()
    ensures SplitOn("23:59:60", ':') == ["23", "59", "60"]
  {
    SplitOnJoin(["23", "59", "60"], ':');
    assert Join(["23", "59", "60"], ':') == "23:59:60";
  }

  lemma LastLeapYear()
    ensures AllDigits("2016") && DigitsValue("2016") == 2016
  {
    var y := "2016";
    assert AllDigits(y);
    assert PrefixValue(y, 1) == 2;
    assert PrefixValue(y, 2) == 20;
    assert PrefixValue(y, 3) == 201;
  }

  lemma LastLeapMonth()
    ensures MonthNumber("Dec") == Some(12)
  {
    assert Lower("Dec") == "dec";
  }

  lemma LastLeapInstant()
    ensures ValidDate(2016, 12, 31)
    ensures TimeGm(2016, 12, 31, 23, 59, 60) == 1483228800
  {
    InsertedSecondIsNextMidnight(2016, 12, 31);
  }

  // ---------------------------------------------------------------- written rows read back

  function Pow10(k: nat): (p: nat)
    ensures p >= 1
  {
    if k == 0 then 1 else 10 * Pow10(k - 1)
  }

  /** `n` in exactly `width` decimal digits, zero-padded on the left, as the tzdata file writes its date fields. */
  function PadDigits(n: nat, width: nat): (s: string)
    ensures |s| == width && AllDigits(s) && NoSpace(s)
    decreases width
  {
    if width == 0 then [] else PadDigits(n / 10, width - 1) + [DigitChar(n % 10)]
  }

  /** A number that fits in the width reads back from its padded digits. */
  lemma {:induction false} PadDigitsValue(n: nat, width: nat)
    requires n < Pow10(width)
    ensures DigitsValue(PadDigits(n, width)) == n
    decreases width
  {
    if width > 0 {
      var p := PadDigits(n / 10, width - 1);
      var s := PadDigits(n, width);
      assert s == p + [DigitChar(n % 10)];
      assert n / 10 < Pow10(width - 1);
      PadDigitsValue(n / 10, width - 1);
      PrefixValueAppend(p, [DigitChar(n % 10)], |p|);
      assert DigitsValue(s) == PrefixValue(s, |p|) * 10 + DigitValue(s[|p|]);
    }
  }

  /** A two-digit field within the range reads as its value. */
  lemma PaddedSmallField(n: nat, lo: int, hi: int)
    requires lo <= n <= hi && n < 100
    ensures SmallField(PadDigits(n, 2), lo, hi) == Some(n)
  {
    PadDigitsValue(n, 2);
  }

  /** `HH:MM:SS` with two digits each. */
  function Clock(hh: nat, mm: nat, ss: nat): string {
    Join([PadDigits(hh, 2), PadDigits(mm, 2), PadDigits(ss, 2)], ':')
  }

  lemma ClockFields(hh: nat, mm: nat, ss: nat)
    ensures SplitOn(Clock(hh, mm, ss), ':') == [PadDigits(hh, 2), PadDigits(mm, 2), PadDigits(ss, 2)]
    ensures NoSpace(Clock(hh, mm, ss)) && Clock(hh, mm, ss) != []
  {
    var a, b, c := PadDigits(hh, 2), PadDigits(mm, 2), PadDigits(ss, 2);
    DigitsHaveNoColon(a);
    DigitsHaveNoColon(b);
    DigitsHaveNoColon(c);
    SplitOnJoin([a, b, c], ':');
    ClockIsWord(a, b, c);
  }

  lemma DigitsHaveNoColon(s: string)
    requires AllDigits(s)
    ensures ':' !in s
  {
  }

  /** Digits joined by `:` hold no whitespace. */
  lemma ClockIsWord(a: string, b: string, c: string)
    requires |a| == 2 && NoSpace(a) && NoSpace(b) && NoSpace(c)
    ensures Join([a, b, c], ':') != [] && NoSpace(Join([a, b, c], ':'))
  {
    var s := Join([a, b, c], ':');
    assert [a, b, c][1..] == [b, c] && [b, c][1..] == [c];
    assert Join([c], ':') == c;
    assert Join([b, c], ':') == b + [':'] + c;
    assert s == a + [':'] + Join([b, c], ':');
    assert s[0] == a[0];
  }

  /**
   * A month name whose ASCII lower case is an abbreviation in the table is
   * one word, and `%b` reads it as that month.
   */
  lemma MonthNameReads(mon: string, m: int)
    requires 1 <= m <= 12 && Lower(mon) == MONTH_ABBREVIATIONS[m - 1]
    ensures mon != [] && NoSpace(mon)
    ensures MonthNumber(mon) == Some(m)
  {
    var a := MONTH_ABBREVIATIONS[m - 1];
    assert |a| == 3 && forall i :: 0 <= i < 3 ==> 'a' <= a[i] <= 'z';
    forall i | 0 <= i < |mon|
      ensures !IsSpace(mon[i])
    {
      assert LowerChar(mon[i]) == a[i];
    }
    MonthTableReads(m);
  }

  /** Each abbreviation in the table reads as its own month: no two months share one. */
  lemma MonthTableReads(m: int)
    requires 1 <= m <= 12
    ensures MonthFrom(MONTH_ABBREVIATIONS[m - 1], 0) == Some(m)
  {
    var t := MONTH_ABBREVIATIONS;
    forall k | 0 <= k < m - 1
      ensures t[k] != t[m - 1]
    {
      assert t[k][0] != t[m - 1][0] || t[k][1] != t[m - 1][1] || t[k][2] != t[m - 1][2];
    }
    MonthFromFinds(t[m - 1], 0, m);
  }

  /** The search passes over the abbreviations before the first that matches. */
  lemma {:induction false} MonthFromFinds(lower: string, i: nat, m: int)
    requires i < m <= 12 && MONTH_ABBREVIATIONS[m - 1] == lower
    requires forall k :: i <= k < m - 1 ==> MONTH_ABBREVIATIONS[k] != lower
    ensures MonthFrom(lower, i) == Some(m)
    decreases m - i
  {
    if i < m - 1 {
      assert MONTH_ABBREVIATIONS[i] != lower;
      MonthFromFinds(lower, i + 1, m);
    } else {
      assert MONTH_ABBREVIATIONS[i] == lower;
    }
  }

  /**
   * `strptime` with `%Y %b %d %H:%M:%S` reads the date and clock it is given
   * back: a four-digit year, a month name, a day of that month and a clock
   * with seconds up to 61 give `timegm` of exactly those fields.
   */
  lemma StrptimeReadsFields(y: nat, mon: string, m: int, d: nat, hh: nat, mm: nat, ss: nat)
    requires y < 10000 && ValidDate(y, m, d) && Lower(mon) == MONTH_ABBREVIATIONS[m - 1]
    requires hh <= 23 && mm <= 59 && ss <= 61
    ensures StrptimeUtc(PadDigits(y, 4), mon, PadDigits(d, 2), Clock(hh, mm, ss)) == Some(TimeGm(y, m, d, hh, mm, ss))
  {
    PadDigitsValue(y, 4);
    MonthNameReads(mon, m);
    PaddedSmallField(d, 1, 31);
    ClockFields(hh, mm, ss);
    PaddedSmallField(hh, 0, 23);
    PaddedSmallField(mm, 0, 59);
    PaddedSmallField(ss, 0, 61);
  }

  /**
   * A leap line as the tzdata `leapseconds` file writes it: `Leap`, the year,
   * the month, the day, the clock, the correction and `R` or `S`, separated
   * by tabs.
   */
  function RenderNistLeap(y: nat, mon: string, d: nat, hh: nat, mm: nat, ss: nat, corr: string, rs: string): string {
    Join([LEAP_WORD, PadDigits(y, 4), mon, PadDigits(d, 2), Clock(hh, mm, ss), corr, rs], '\t')
  }

  /** `load_NIST` reads a written leap line as the instant of the date and clock it names. */
  lemma NistReadsRenderedLeap(y: nat, mon: string, m: int, d: nat, hh: nat, mm: nat, ss: nat, corr: string, rs: string)
    requires y < 10000 && ValidDate(y, m, d) && Lower(mon) == MONTH_ABBREVIATIONS[m - 1]
    requires hh <= 23 && mm <= 59 && ss <= 61
    requires corr != [] && NoSpace(corr) && rs != [] && NoSpace(rs)
    ensures ClassifyNist(RenderNistLeap(y, mon, d, hh, mm, ss, corr, rs)) == EntryLine(Some(TimeGm(y, m, d, hh, mm, ss)))
  {
    var line := RenderNistLeap(y, mon, d, hh, mm, ss, corr, rs);
    MonthNameReads(mon, m);
    RenderedNistWords(y, mon, d, hh, mm, ss, corr, rs);
    NistDataLine(line);
    StrptimeReadsFields(y, mon, m, d, hh, mm, ss);
  }

  /** A written leap line is unpadded, starts with `L`, and splits into its seven fields. */
  lemma RenderedNistWords(y: nat, mon: string, d: nat, hh: nat, mm: nat, ss: nat, corr: string, rs: string)
    requires mon != [] && NoSpace(mon) && corr != [] && NoSpace(corr) && rs != [] && NoSpace(rs)
    ensures var line := RenderNistLeap(y, mon, d, hh, mm, ss, corr, rs);
            line != [] && line[0] == 'L' && !IsSpace(line[|line| - 1]) &&
            Split(line) == [LEAP_WORD, PadDigits(y, 4), mon, PadDigits(d, 2), Clock(hh, mm, ss), corr, rs]
  {
    ClockFields(hh, mm, ss);
    LeapWord();
    SevenWords(LEAP_WORD, PadDigits(y, 4), mon, PadDigits(d, 2), Clock(hh, mm, ss), corr, rs);
  }

  /** The first field of a leap line in the tzdata file. */
  const LEAP_WORD: string := "Leap"

  lemma LeapWord()
    ensures LEAP_WORD != [] && NoSpace(LEAP_WORD) && LEAP_WORD[0] == 'L'
  {
  }

  /** Seven words joined by tabs: unpadded, and `split()` gives them back. */
  lemma SevenWords(w0: string, w1: string, w2: string, w3: string, w4: string, w5: string, w6: string)
    requires w0 != [] && NoSpace(w0) && w1 != [] && NoSpace(w1) && w2 != [] && NoSpace(w2)
    requires w3 != [] && NoSpace(w3) && w4 != [] && NoSpace(w4) && w5 != [] && NoSpace(w5)
    requires w6 != [] && NoSpace(w6)
    ensures var line := Join([w0, w1, w2, w3, w4, w5, w6], '\t');
            line != [] && line[0] == w0[0] && !IsSpace(line[|line| - 1]) &&
            Split(line) == [w0, w1, w2, w3, w4, w5, w6]
  {
    var ws := [w0, w1, w2, w3, w4, w5, w6];
    assert AllWords(ws);
    SplitTabJoined(ws);
  }

  /** An unpadded line that is not a comment is an entry to `load_NIST`, read from its second to fifth fields. */
  lemma NistDataLine(line: string)
    requires line != [] && !IsSpace(line[0]) && !IsSpace(line[|line| - 1]) && line[0] != '#'
    ensures var f := Split(line);
            ClassifyNist(line) == EntryLine(if |f| >= 6 then StrptimeUtc(f[1], f[2], f[3], f[4]) else None)
  {
    StripUnpadded(line);
    assert line[..1] == [line[0]];
  }

  /** `load_IETF` reads a written data row, after the first, as the instant it names. */
  lemma IetfReadsRenderedLeap(l: Conversion.Leap)
    ensures ClassifyIetf(RenderLeap(l)) == EntryLine(Some(l.instant))
  {
    var a := IntToString(l.instant + NTP_UNIX_SHIFT);
    var b := IntToString(l.offset);
    var line := a + "\t" + b;
    assert line[0] == a[0] && line[|line| - 1] == b[|b| - 1];
    assert IsDigit(a[0]) || a[0] == '-' by {
      IntToStringChars(l.instant + NTP_UNIX_SHIFT);
    }
    IetfDataLine(line);
    SplitTwoNumbers(l.instant + NTP_UNIX_SHIFT, l.offset);
    PyIntOfIntToString(l.instant + NTP_UNIX_SHIFT);
  }

  /** An unpadded line that is not a comment is an entry to `load_IETF`, read from its first field. */
  lemma IetfDataLine(line: string)
    requires line != [] && !IsSpace(line[0]) && !IsSpace(line[|line| - 1]) && line[0] != '#'
    ensures var f := Split(line);
            ClassifyIetf(line) == EntryLine(if |f| >= 2 && PyInt(f[0]).Some? then Some(NtpToUnix(PyInt(f[0]).value)) else None)
  {
    StripUnpadded(line);
    assert line[..1] == [line[0]];
  }

  // ---------------------------------------------------------------- fetch_ietf_leapfile

  /** Why `fetch_ietf_leapfile` raised. */
  datatype FetchError = DownloadFailed | TempFileRaised(index: nat) | RenameRaised

  function TempPath(path: string): (tmp: string)
    ensures tmp != path
  {
    path + ".tmp"
  }

  /**
   * What `fetch_ietf_leapfile` leaves behind: the files afterwards and the
   * table read, or why it raised. The download is written to
   * `path + '.tmp'` and parsed, and only then renamed over `path`, which on
   * Windows raises when `path` already exists.
   */
  function FetchOutcome(fs: FileSystem, path: string, download: Option<seq<string>>, renameReplaces: bool)
    : (out: (FileSystem, Result<Loaded, FetchError>))
    ensures out.1.Success? <==> download.Some? && IetfLoad(download.value).Success? && (renameReplaces || path !in fs)
    ensures out.1.Success? ==> out.1.value == IetfLoad(download.value).value &&
                               out.0 == (fs - {TempPath(path)})[path := download.value]
    ensures download.Some? && IetfLoad(download.value).Success? && !renameReplaces && path in fs ==>
              out.1 == Failure(RenameRaised)
    ensures out.1.Failure? ==> (path in out.0 <==> path in fs) && (path in fs ==> out.0[path] == fs[path])
    ensures download.None? ==> out.0 == fs
    ensures download.Some? && out.1.Failure? ==> out.0 == fs[TempPath(path) := download.value]
  {
    if download.None? then (fs, Failure(DownloadFailed))
    else
      var tmp := TempPath(path);
      match IetfLoad(download.value)
      case Failure(i) => (fs[tmp := download.value], Failure(TempFileRaised(i)))
      case Success(l) =>
        if !renameReplaces && path in fs then (fs[tmp := download.value], Failure(RenameRaised))
        else ((fs - {tmp})[path := download.value], Success(l))
  }

  method FetchIetfLeapfile(fs: FileSystem, path: string, download: Option<seq<string>>, renameReplaces: bool)
    returns (fs': FileSystem, r: Result<Loaded, FetchError>)
    ensures (fs', r) == FetchOutcome(fs, path, download, renameReplaces)
  {
    if download.None? {
      return fs, Failure(DownloadFailed);
    }
    var tmp := TempPath(path);
    fs' := fs[tmp := download.value];
    var loaded := LoadIetf(fs'[tmp]);
    if loaded.Failure? {
      return fs', Failure(TempFileRaised(loaded.error));
    }
    if !renameReplaces && path in fs' {
      return fs', Failure(RenameRaised);
    }
    fs' := (fs' - {tmp})[path := fs'[tmp]];
    assert fs' == (fs - {tmp})[path := download.value];
    return fs', Success(loaded.value);
  }

  /**
   * On Windows a user cache that exists is never refreshed: the download
   * parses, the rename raises, and the old file stays with the new one
   * beside it under the temporary name.
   */
  lemma WindowsFetchKeepsOldCache(fs: FileSystem, download: seq<string>)
    requires NT_PATHS.user in fs && IetfLoad(download).Success?
    ensures var out := FetchOutcome(fs, NT_PATHS.user, Some(download), NT_PATHS.renameReplaces);
            out.1 == Failure(RenameRaised) && out.0[NT_PATHS.user] == fs[NT_PATHS.user] &&
            out.0 == fs[TempPath(NT_PATHS.user) := download]
  {
  }

  /**
   * The fetch as its docstring describes it, with a rename that replaces the
   * target on every platform (`os.replace`): a download that parses always
   * becomes the file at `path`.
   */
  function FetchOutcomeIntended(fs: FileSystem, path: string, download: Option<seq<string>>)
    : (out: (FileSystem, Result<Loaded, FetchError>))
    ensures out.1.Success? <==> download.Some? && IetfLoad(download.value).Success?
    ensures out.1.Success? ==> path in out.0 && out.0[path] == download.value && TempPath(path) !in out.0
    ensures out.1.Failure? ==> (path in out.0 <==> path in fs) && (path in fs ==> out.0[path] == fs[path])
  {
    FetchOutcome(fs, path, download, true)
  }

  // ---------------------------------------------------------------- class LeapData

  /** The RuntimeErrors `LeapData` raises. */
  datatype LeapError = LoadFailed(path: string) | NoData

  datatype Loader = Nist | Ietf

  function LoaderResult(loader: Loader, lines: seq<string>): Result<Loaded, nat> {
    match loader
    case Nist => NistLoad(lines)
    case Ietf => IetfLoad(lines)
  }

  /** `expired`: the data count as expired once the clock has reached the expiry. */
  predicate ExpiredAt(expires: int, now: real) {
    expires as real <= now
  }

  /**
   * `LeapData.expired` applies the same test as the package's
   * `is_leapdata_expired`: data whose expiry is the current instant have
   * already expired, and only a later clock reading makes fresh data stale.
   */
  lemma ExpiredAtAgreesWithPackage(expires: int, now: real)
    ensures ExpiredAt(expires, now) <==> GpsTimePackage.Expired(expires, now)
    ensures ExpiredAt(expires, expires as real)
    ensures ExpiredAt(expires, now) ==> forall later: real :: later >= now ==> ExpiredAt(expires, later)
  {
  }

  /** `not self.data or self.expired`: a later source is consulted only then. */
  predicate NeedsSource(data: Option<seq<int>>, expires: int, now: real) {
    data.None? || data.value == [] || ExpiredAt(expires, now)
  }

  /** `_load(func, path)` on the state (`data`, `expires`), when `path` is given and exists; otherwise nothing happens. */
  function Consult(fs: FileSystem, loader: Loader, path: Option<string>, data: Option<seq<int>>, expires: int)
    : (r: Result<(Option<seq<int>>, int), LeapError>)
  {
    if path.None? || path.value !in fs then Success((data, expires))
    else
      match LoaderResult(loader, fs[path.value])
      case Failure(_) => Failure(LoadFailed(path.value))
      case Success(l) => Success((Some(l.data), l.expires))
  }

  /** The fields after `__init__`: the NIST file, then the system IETF file, then the user cache, each only while needed. */
  function InitChain(fs: FileSystem, paths: LeapPaths, now: real): Result<(Option<seq<int>>, int), LeapError> {
    match Consult(fs, Nist, paths.nist, None, 0)
    case Failure(e) => Failure(e)
    case Success(s1) =>
      match (if NeedsSource(s1.0, s1.1, now) then Consult(fs, Ietf, paths.ietf, s1.0, s1.1) else Success(s1))
      case Failure(e) => Failure(e)
      case Success(s2) =>
        if NeedsSource(s2.0, s2.1, now) then Consult(fs, Ietf, Some(paths.user), s2.0, s2.1) else Success(s2)
  }

  class LeapData {
    var data: Option<seq<int>>
    var expires: int

    /** The fields before any file is read: no data, expired since 0. */
    constructor ()
      ensures data == None && expires == 0
    {
      data := None;
      expires := 0;
    }

    predicate Expired(now: real)
      reads this
    {
      ExpiredAt(expires, now)
    }

    /** `_load`: run a loader on `path`; anything it raises becomes a RuntimeError and the fields stay. */
    method Load(loader: Loader, fs: FileSystem, path: string) returns (r: Result<(), LeapError>)
      modifies this
      ensures var c := Consult(fs, loader, Some(path), old(data), old(expires));
              path in fs ==> (r.Success? <==> c.Success?) && (c.Success? ==> (data, expires) == c.value)
      ensures path !in fs ==> r == Failure(LoadFailed(path))
      ensures r.Failure? ==> r.error == LoadFailed(path)
      ensures r.Failure? ==> data == old(data) && expires == old(expires)
    {
      if path !in fs {
        return Failure(LoadFailed(path));
      }
      var loaded: Result<Loaded, nat>;
      if loader == Nist {
        loaded := LoadNist(fs[path]);
      } else {
        loaded := LoadIetf(fs[path]);
      }
      if loaded.Failure? {
        return Failure(LoadFailed(path));
      }
      data, expires := Some(loaded.value.data), loaded.value.expires;
      return Success(());
    }

    /** The rest of `__init__`: consult the sources in order, each only if it exists and is still needed. */
    method LoadSources(fs: FileSystem, paths: LeapPaths, now: real) returns (r: Result<(), LeapError>)
      requires data == None && expires == 0
      modifies this
      ensures var c := InitChain(fs, paths, now);
              (r.Success? <==> c.Success?) && (c.Success? ==> (data, expires) == c.value) &&
              (c.Failure? ==> r.error == c.error)
    {
      if paths.nist.Some? && paths.nist.value in fs {
        r := Load(Nist, fs, paths.nist.value);
        if r.Failure? { return; }
      }
      if (data.None? || data.value == [] || Expired(now)) && paths.ietf.Some? && paths.ietf.value in fs {
        r := Load(Ietf, fs, paths.ietf.value);
        if r.Failure? { return; }
      }
      if (data.None? || data.value == [] || Expired(now)) && paths.user in fs {
        r := Load(Ietf, fs, paths.user);
        if r.Failure? { return; }
      }
      return Success(());
    }

    /** `__iter__`: the instants in stored order, or a RuntimeError when there are none. */
    method Iter() returns (r: Result<seq<int>, LeapError>)
      ensures r.Success? <==> data.Some? && data.value != []
      ensures r.Success? ==> r.value == data.value
      ensures r.Failure? ==> r.error == NoData
    {
      if data.None? || data.value == [] {
        return Failure(NoData);
      }
      return Success(data.value);
    }

    /**
     * `update_local`: nothing happens while there are data that have not
     * expired; otherwise the user cache is fetched and loaded, and a
     * failure becomes a RuntimeError that leaves the fields alone.
     */
    method UpdateLocal(fs: FileSystem, paths: LeapPaths, download: Option<seq<string>>, now: real)
      returns (fs': FileSystem, r: Result<(), LeapError>)
      modifies this
      ensures !NeedsSource(old(data), old(expires), now) ==>
                fs' == fs && r.Success? && data == old(data) && expires == old(expires)
      ensures NeedsSource(old(data), old(expires), now) ==>
                (r.Success? <==> download.Some? && IetfLoad(download.value).Success? &&
                                 (paths.renameReplaces || paths.user !in fs))
      ensures NeedsSource(old(data), old(expires), now) && r.Success? ==>
                data == Some(IetfLoad(download.value).value.data) && expires == IetfLoad(download.value).value.expires &&
                fs' == (fs - {TempPath(paths.user)})[paths.user := download.value]
      ensures NeedsSource(old(data), old(expires), now) && download.None? ==> fs' == fs
      ensures NeedsSource(old(data), old(expires), now) && download.Some? && r.Failure? ==>
                fs' == fs[TempPath(paths.user) := download.value]
      ensures r.Failure? ==> r.error == LoadFailed(paths.user) && data == old(data) && expires == old(expires)
    {
      if data.Some? && data.value != [] && !Expired(now) {
        return fs, Success(());
      }
      var fetched;
      fs', fetched := FetchIetfLeapfile(fs, paths.user, download, paths.renameReplaces);
      if fetched.Failure? {
        return fs', Failure(LoadFailed(paths.user));
      }
      data, expires := Some(fetched.value.data), fetched.value.expires;
      r := Success(());
    }
  }

  // ---------------------------------------------------------------- the source chain

  /** A NIST file with data that have not expired settles everything: no IETF file is read. */
  lemma InitPrefersFreshNist(fs: FileSystem, paths: LeapPaths, now: real)
    requires paths.nist.Some? && paths.nist.value in fs
    requires NistLoad(fs[paths.nist.value]).Success?
    requires !NeedsSource(Some(NistLoad(fs[paths.nist.value]).value.data), NistLoad(fs[paths.nist.value]).value.expires, now)
    ensures var l := NistLoad(fs[paths.nist.value]).value;
            InitChain(fs, paths, now) == Success((Some(l.data), l.expires))
  {
  }

  /** Without a NIST or a system IETF file, the user cache is what is loaded (on Windows, always). */
  lemma InitFallsBackToUserCache(fs: FileSystem, paths: LeapPaths, now: real)
    requires paths.nist.None? || paths.nist.value !in fs
    requires paths.ietf.None? || paths.ietf.value !in fs
    requires paths.user in fs && IetfLoad(fs[paths.user]).Success?
    ensures var l := IetfLoad(fs[paths.user]).value;
            InitChain(fs, paths, now) == Success((Some(l.data), l.expires))
  {
  }

  /** A source that exists but does not parse makes construction raise, naming that source. */
  lemma InitRaisesOnBrokenNist(fs: FileSystem, paths: LeapPaths, now: real)
    requires paths.nist.Some? && paths.nist.value in fs && NistLoad(fs[paths.nist.value]).Failure?
    ensures InitChain(fs, paths, now) == Failure(LoadFailed(paths.nist.value))
  {
  }

  /** An expired NIST table is replaced by the system IETF file when that one parses. */
  lemma InitReplacesExpiredNist(fs: FileSystem, paths: LeapPaths, now: real)
    requires paths.nist.Some? && paths.nist.value in fs && NistLoad(fs[paths.nist.value]).Success?
    requires ExpiredAt(NistLoad(fs[paths.nist.value]).value.expires, now)
    requires paths.ietf.Some? && paths.ietf.value in fs && IetfLoad(fs[paths.ietf.value]).Success?
    requires !NeedsSource(Some(IetfLoad(fs[paths.ietf.value]).value.data), IetfLoad(fs[paths.ietf.value]).value.expires, now)
    ensures var l := IetfLoad(fs[paths.ietf.value]).value;
            InitChain(fs, paths, now) == Success((Some(l.data), l.expires))
  {
    var n := NistLoad(fs[paths.nist.value]).value;
    var l := IetfLoad(fs[paths.ietf.value]).value;
    assert Consult(fs, Nist, paths.nist, None, 0) == Success((Some(n.data), n.expires));
    assert NeedsSource(Some(n.data), n.expires, now);
    assert Consult(fs, Ietf, paths.ietf, Some(n.data), n.expires) == Success((Some(l.data), l.expires));
  }

  /** With no source file at all, construction succeeds with no data, and iterating would raise. */
  lemma InitWithNoFiles(fs: FileSystem, paths: LeapPaths, now: real)
    requires paths.nist.None? || paths.nist.value !in fs
    requires paths.ietf.None? || paths.ietf.value !in fs
    requires paths.user !in fs
    ensures InitChain(fs, paths, now) == Success((None, 0))
  {
  }
}
