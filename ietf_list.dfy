/**
 * The line loop of `__ietf_parse_leapfile`, which gpstime/__init__.py and
 * gpstime.py share word for word: each line of an IETF `leap-seconds.list`
 * file is an expiry line (`#@` and an NTP timestamp), another comment, or a
 * data row whose first two fields are an NTP timestamp and the TAI-UTC offset.
 * Lines are not stripped, so a blank line, like a data row with fewer than two
 * fields or a field that is not an integer, raises and ends the parse.
 *
 * A file is a sequence of lines, each without its line terminator.
 */
module IetfList {
  import opened Wrappers
  import opened PyText
  import opened Calendar
  import opened Conversion

  /** The files the parsers can open: each path maps to the file's lines. */
  type FileSystem = map<string, seq<string>>

  /** `__ietf_c_to_unix` once `int()` has read the text: NTP seconds to UNIX seconds. */
  function NtpToUnix(c: int): int {
    c - NTP_UNIX_SHIFT
  }

  /** An NTP timestamp counts from 1900-01-01T00:00:00Z, which is where the shift comes from. */
  lemma NtpToUnixCountsFromNtpEpoch(c: int)
    ensures NtpToUnix(c) == TimeGm(1900, 1, 1, 0, 0, 0) + c
  {
    NtpEpochIsShift();
  }

  /** What one line means to the parser. */
  datatype Row =
    | ExpiryRow(expire: int)
    | CommentRow
    | DataRow(unix: int, offset: int)
    | BadRow

  /** `line[:2] == '#@'`. */
  predicate IsExpiryLine(line: string) {
    |line| >= 2 && line[0] == '#' && line[1] == '@'
  }

  /** How the loop body treats `line`; `BadRow` where Python raises. */
  function ClassifyLine(line: string): Row {
    if IsExpiryLine(line) then
      var f := Split(line);
      if |f| >= 2 && PyInt(f[1]).Some? then ExpiryRow(NtpToUnix(PyInt(f[1]).value)) else BadRow
    else if |line| >= 1 && line[0] == '#' then CommentRow
    else
      var f := Split(line);
      if |f| >= 2 && PyInt(f[0]).Some? && PyInt(f[1]).Some? then
        DataRow(NtpToUnix(PyInt(f[0]).value), PyInt(f[1]).value)
      else BadRow
  }

  /**
   * An empty or all-whitespace line raises in the loop: `line[0]` of an
   * empty line, or `sl[0]` of the empty `split()` of a blank one.
   */
  lemma BlankLineRaises(line: string)
    requires forall i :: 0 <= i < |line| ==> IsSpace(line[i])
    ensures ClassifyLine(line) == BadRow
  {
    BlankSplitsToNothing(line);
  }

  /** Why a parse gave no table: the line that raised, or (gpstime.py only) no `#@` line at all. */
  datatype ParseError = BadLine(index: nat) | NoExpiry

  /** The rows of a file, line by line. */
  function Rows(lines: seq<string>): (rows: seq<Row>)
    ensures |rows| == |lines|
    ensures forall i :: 0 <= i < |lines| ==> rows[i] == ClassifyLine(lines[i])
  {
    seq(|lines|, i requires 0 <= i < |lines| => ClassifyLine(lines[i]))
  }

  /**
   * The loop's state after the rows so far: the entries kept (instant after
   * GPS0) in file order and the expiry of the last `#@` line, None while
   * there has been none.
   */
  function ScanRows(rows: seq<Row>): (r: Result<(seq<Leap>, Option<int>), ParseError>)
    ensures r.Failure? ==> r.error.BadLine? && r.error.index < |rows|
    decreases |rows|
  {
    if rows == [] then Success(([], None))
    else
      var n := |rows| - 1;
      match ScanRows(rows[..n])
      case Failure(e) => Failure(e)
      case Success(acc) =>
        match rows[n]
        case ExpiryRow(e) => Success((acc.0, Some(e)))
        case CommentRow => Success(acc)
        case DataRow(u, o) => Success((if u > GPS0 then acc.0 + [Leap(u, o)] else acc.0, acc.1))
        case BadRow => Failure(BadLine(n))
  }

  /** What `__ietf_parse_leapfile`'s loop makes of a whole file. */
  function Scan(lines: seq<string>): Result<(seq<Leap>, Option<int>), ParseError> {
    ScanRows(Rows(lines))
  }

  /** The `for line in f` loop of `__ietf_parse_leapfile`; a raise is an early Failure. */
  method ParseIetfLines(lines: seq<string>) returns (r: Result<(seq<Leap>, Option<int>), ParseError>)
    ensures r == Scan(lines)
  {
    ghost var rows := Rows(lines);
    var data: seq<Leap> := [];
    var expire: Option<int> := None;
    var i := 0;
    while i < |lines|
      invariant 0 <= i <= |lines|
      invariant ScanRows(rows[..i]) == Success((data, expire))
    {
      var line := lines[i];
      assert rows[..i + 1][..i] == rows[..i];
      assert rows[i] == ClassifyLine(line);
      if IsExpiryLine(line) {
        var f := Split(line);
        if |f| < 2 || PyInt(f[1]).None? {
          ScanFailurePersists(rows, i + 1);
          return Failure(BadLine(i));
        }
        expire := Some(NtpToUnix(PyInt(f[1]).value));
      } else if |line| >= 1 && line[0] == '#' {
      } else {
        var sl := Split(line);
        if |sl| < 2 || PyInt(sl[0]).None? || PyInt(sl[1]).None? {
          ScanFailurePersists(rows, i + 1);
          return Failure(BadLine(i));
        }
        var unix := NtpToUnix(PyInt(sl[0]).value);
        var offset := PyInt(sl[1]).value;
        if unix > GPS0 {
          data := data + [Leap(unix, offset)];
        }
      }
      i := i + 1;
    }
    assert rows[..i] == rows;
    return Success((data, expire));
  }

  /** Once a line has raised, later lines change nothing. */
  lemma {:induction false} ScanFailurePersists(rows: seq<Row>, j: nat)
    requires j <= |rows| && ScanRows(rows[..j]).Failure?
    ensures ScanRows(rows) == ScanRows(rows[..j])
    decreases |rows| - j
  {
    if j == |rows| {
      assert rows[..j] == rows;
    } else {
      assert rows[..j + 1][..j] == rows[..j];
      ScanFailurePersists(rows, j + 1);
    }
  }

  // ---------------------------------------------------------------- what a parse yields

  /** A successful parse met no line that raises. */
  lemma {:induction false} ScanSucceedsWithoutBadRow(rows: seq<Row>, i: nat)
    requires ScanRows(rows).Success? && i < |rows|
    ensures !rows[i].BadRow?
    decreases |rows|
  {
    var n := |rows| - 1;
    if i < n {
      assert rows[..n][i] == rows[i];
      ScanSucceedsWithoutBadRow(rows[..n], i);
    }
  }

  /** The parse fails exactly at the first line that raises, and only there. */
  lemma {:induction false} ScanFailsAtFirstBadRow(rows: seq<Row>, i: nat)
    ensures ScanRows(rows) == Failure(BadLine(i)) <==>
              i < |rows| && rows[i].BadRow? && forall j :: 0 <= j < i ==> !rows[j].BadRow?
    decreases |rows|
  {
    if rows != [] {
      var n := |rows| - 1;
      var p := rows[..n];
      ScanFailsAtFirstBadRow(p, i);
      assert forall j :: 0 <= j < n ==> p[j] == rows[j];
      if ScanRows(p).Success? {
        if i < n {
          ScanSucceedsWithoutBadRow(p, i);
        } else if i == n {
          forall j | 0 <= j < n
            ensures !rows[j].BadRow?
          {
            ScanSucceedsWithoutBadRow(p, j);
          }
        }
      } else {
        var k := ScanRows(p).error.index;
        ScanFailsAtFirstBadRow(p, k);
      }
    }
  }

  /**
   * A successful parse holds an entry exactly when some data row names its
   * instant and offset and that instant lies after GPS0.
   */
  lemma {:induction false} ScanEntries(rows: seq<Row>, l: Leap)
    requires ScanRows(rows).Success?
    ensures l in ScanRows(rows).value.0 <==>
              l.instant > GPS0 && exists i :: 0 <= i < |rows| && rows[i] == DataRow(l.instant, l.offset)
    decreases |rows|
  {
    if rows != [] {
      var n := |rows| - 1;
      var p := rows[..n];
      ScanEntries(p, l);
      assert forall j :: 0 <= j < n ==> p[j] == rows[j];
      if (exists i :: 0 <= i < |rows| && rows[i] == DataRow(l.instant, l.offset)) {
        var i :| 0 <= i < |rows| && rows[i] == DataRow(l.instant, l.offset);
        if i < n {
          assert p[i] == DataRow(l.instant, l.offset);
        }
      }
    }
  }

  /** Every kept instant lies strictly after GPS time zero. */
  lemma ScanKeepsOnlyAfterGps0(rows: seq<Row>)
    requires ScanRows(rows).Success?
    ensures forall k :: 0 <= k < |ScanRows(rows).value.0| ==> ScanRows(rows).value.0[k].instant > GPS0
  {
    var d := ScanRows(rows).value.0;
    forall k | 0 <= k < |d|
      ensures d[k].instant > GPS0
    {
      ScanEntries(rows, d[k]);
    }
  }

  /** The expiry is absent exactly when there is no `#@` line. */
  lemma {:induction false} ScanExpiry(rows: seq<Row>)
    requires ScanRows(rows).Success?
    ensures ScanRows(rows).value.1.None? <==> forall i :: 0 <= i < |rows| ==> !rows[i].ExpiryRow?
    decreases |rows|
  {
    if rows != [] {
      var n := |rows| - 1;
      var p := rows[..n];
      ScanExpiry(p);
      assert forall j :: 0 <= j < n ==> p[j] == rows[j];
    }
  }

  /** When present, the expiry is the one of the last `#@` line. */
  lemma {:induction false} ScanExpiryIsLast(rows: seq<Row>)
    requires ScanRows(rows).Success? && ScanRows(rows).value.1.Some?
    ensures exists i :: 0 <= i < |rows| && rows[i] == ExpiryRow(ScanRows(rows).value.1.value) &&
              forall j :: i < j < |rows| ==> !rows[j].ExpiryRow?
    decreases |rows|
  {
    var n := |rows| - 1;
    var p := rows[..n];
    var e := ScanRows(rows).value.1.value;
    if rows[n].ExpiryRow? {
      assert rows[n] == ExpiryRow(e);
    } else {
      assert ScanRows(p).value.1 == Some(e);
      ScanExpiryIsLast(p);
      var i :| 0 <= i < |p| && p[i] == ExpiryRow(e) && forall j :: i < j < |p| ==> !p[j].ExpiryRow?;
      assert rows[i] == ExpiryRow(e);
      assert forall j :: i < j < n ==> rows[j] == p[j];
    }
  }

  /** The data rows' instants rise in file order. */
  predicate RowsRise(rows: seq<Row>) {
    forall i, j :: 0 <= i < j < |rows| && rows[i].DataRow? && rows[j].DataRow? ==> rows[i].unix < rows[j].unix
  }

  /** Entries come out in file order: rising data rows give a strictly increasing table. */
  lemma {:induction false} ScanKeepsFileOrder(rows: seq<Row>)
    requires ScanRows(rows).Success? && RowsRise(rows)
    ensures StrictlyIncreasing(ScanRows(rows).value.0)
    decreases |rows|
  {
    if rows != [] {
      var n := |rows| - 1;
      var p := rows[..n];
      assert forall j :: 0 <= j < n ==> p[j] == rows[j];
      assert RowsRise(p);
      ScanKeepsFileOrder(p);
      var row := rows[n];
      if row.DataRow? && row.unix > GPS0 {
        var d := ScanRows(p).value.0;
        forall k | 0 <= k < |d|
          ensures d[k].instant < row.unix
        {
          ScanEntries(p, d[k]);
          var i :| 0 <= i < |p| && p[i] == DataRow(d[k].instant, d[k].offset);
          assert rows[i].DataRow?;
        }
      }
    }
  }

  // ---------------------------------------------------------------- writing a table back out

  /** A data row as the bulletin writes it: NTP timestamp, a tab, the offset. */
  function RenderLeap(l: Leap): string {
    IntToString(l.instant + NTP_UNIX_SHIFT) + "\t" + IntToString(l.offset)
  }

  /** The expiry line as the bulletin writes it. */
  function RenderExpiry(expire: int): string {
    "#@\t" + IntToString(expire + NTP_UNIX_SHIFT)
  }

  /** A file written as the bulletin writes it: the expiry line first, then one row per table entry. */
  predicate IsRenderedTable(lines: seq<string>, t: seq<Leap>, expire: int) {
    |lines| == |t| + 1 &&
    lines[0] == RenderExpiry(expire) &&
    forall k :: 0 <= k < |t| ==> lines[k + 1] == RenderLeap(t[k])
  }

  lemma NumberIsWord(i: int)
    ensures IntToString(i) != [] && NoSpace(IntToString(i))
  {
    var s := IntToString(i);
    IntToStringChars(i);
    forall k | 0 <= k < |s|
      ensures !IsSpace(s[k])
    {
      assert IsDigit(s[k]) || s[k] == '-';
    }
  }

  /** Two numbers separated by a tab split into those two numbers. */
  lemma SplitTwoNumbers(x: int, y: int)
    ensures Split(IntToString(x) + "\t" + IntToString(y)) == [IntToString(x), IntToString(y)]
  {
    NumberIsWord(x);
    NumberIsWord(y);
    assert IsSpace('\t');
    SplitWordThenRest(IntToString(x), "\t", IntToString(y));
    WordSplitsToItself(IntToString(y));
  }

  /** A rendered row reads back as the entry it came from. */
  lemma ClassifyRenderedLeap(l: Leap)
    ensures ClassifyLine(RenderLeap(l)) == DataRow(l.instant, l.offset)
  {
    var a := IntToString(l.instant + NTP_UNIX_SHIFT);
    var s := RenderLeap(l);
    assert s[0] == a[0];
    assert IsDigit(a[0]) || a[0] == '-';
    assert !IsExpiryLine(s);
    SplitTwoNumbers(l.instant + NTP_UNIX_SHIFT, l.offset);
    PyIntOfIntToString(l.instant + NTP_UNIX_SHIFT);
    PyIntOfIntToString(l.offset);
  }

  /** A rendered expiry line reads back as its expiry. */
  lemma ClassifyRenderedExpiry(expire: int)
    ensures ClassifyLine(RenderExpiry(expire)) == ExpiryRow(expire)
  {
    var w := IntToString(expire + NTP_UNIX_SHIFT);
    NumberIsWord(expire + NTP_UNIX_SHIFT);
    PyIntOfIntToString(expire + NTP_UNIX_SHIFT);
    ClassifyMarkedWord(RenderExpiry(expire), w);
  }

  /** `#@`, a tab and one word: an expiry line whose timestamp is that word. */
  lemma ClassifyMarkedWord(line: string, w: string)
    requires line == "#@" + "\t" + w
    requires w != [] && NoSpace(w)
    ensures ClassifyLine(line) == if PyInt(w).Some? then ExpiryRow(NtpToUnix(PyInt(w).value)) else BadRow
  {
    var m := "#@";
    assert line[0] == '#' && line[1] == '@';
    assert m != [] && NoSpace(m);
    SplitWordThenRest(m, "\t", w);
    WordSplitsToItself(w);
  }

  /** The rows a table and its expiry stand for: the expiry row, then one data row per entry. */
  function TableRows(t: seq<Leap>, expire: int): (rows: seq<Row>)
    ensures |rows| == |t| + 1
  {
    [ExpiryRow(expire)] + seq(|t|, k requires 0 <= k < |t| => DataRow(t[k].instant, t[k].offset))
  }

  /** The rows of a written-out file are the rows of the table it was written from. */
  lemma RowsOfRenderedFile(lines: seq<string>, t: seq<Leap>, expire: int)
    requires IsRenderedTable(lines, t, expire)
    ensures Rows(lines) == TableRows(t, expire)
  {
    var target := TableRows(t, expire);
    forall i | 0 <= i < |lines|
      ensures ClassifyLine(lines[i]) == target[i]
    {
      RenderedLineAt(lines, t, expire, i);
    }
    RowsPointwise(lines, target);
  }

  /** Rows are determined line by line. */
  lemma RowsPointwise(lines: seq<string>, rows: seq<Row>)
    requires |lines| == |rows|
    requires forall i :: 0 <= i < |lines| ==> ClassifyLine(lines[i]) == rows[i]
    ensures Rows(lines) == rows
  {
  }

  /** Line `i` of a written-out file classifies as row `i` of its table. */
  lemma RenderedLineAt(lines: seq<string>, t: seq<Leap>, expire: int, i: int)
    requires IsRenderedTable(lines, t, expire) && 0 <= i <= |t|
    ensures ClassifyLine(lines[i]) == TableRows(t, expire)[i]
  {
    TableRowAt(t, expire, i);
    if i == 0 {
      RenderedExpiryLine(lines[0], expire);
    } else {
      RenderedEntryLine(lines[i], t[i - 1]);
    }
  }

  /** Row `i` of a table: the expiry row first, then the entries. */
  lemma TableRowAt(t: seq<Leap>, expire: int, i: int)
    requires 0 <= i <= |t|
    ensures TableRows(t, expire)[i] == if i == 0 then ExpiryRow(expire) else DataRow(t[i - 1].instant, t[i - 1].offset)
  {
  }

  lemma RenderedExpiryLine(line: string, expire: int)
    requires line == RenderExpiry(expire)
    ensures ClassifyLine(line) == ExpiryRow(expire)
  {
    ClassifyRenderedExpiry(expire);
  }

  lemma RenderedEntryLine(line: string, l: Leap)
    requires line == RenderLeap(l)
    ensures ClassifyLine(line) == DataRow(l.instant, l.offset)
  {
    ClassifyRenderedLeap(l);
  }

  lemma {:induction false} ScanLeapRows(t: seq<Leap>, expire: int)
    requires forall k :: 0 <= k < |t| ==> t[k].instant > GPS0
    ensures ScanRows(TableRows(t, expire))
            == Success((t, Some(expire)))
    decreases |t|
  {
    var rows := TableRows(t, expire);
    if t == [] {
      assert rows[..0] == [];
    } else {
      var n := |t| - 1;
      var u := t[..n];
      ScanLeapRows(u, expire);
      assert rows[..|rows| - 1] == TableRows(u, expire);
      assert u + [t[n]] == t;
    }
  }

  /** Parsing a written-out table gives back the table and its expiry, when all of it lies after GPS0. */
  lemma ScanRenderedFile(lines: seq<string>, t: seq<Leap>, expire: int)
    requires IsRenderedTable(lines, t, expire)
    requires forall k :: 0 <= k < |t| ==> t[k].instant > GPS0
    ensures Scan(lines) == Success((t, Some(expire)))
  {
    RowsOfRenderedFile(lines, t, expire);
    ScanLeapRows(t, expire);
  }
}
