/**
 * UNIX <-> GPS conversion over a leap table: `unix2gps` and `gps2unix`, which
 * are the same integer loops in gpstime/__init__.py and in the older gpstime.py
 * (the package only coerces its argument to float first; the model counts whole
 * seconds). Each walks the table from the front, counts one second per entry at
 * or before the running value, and stops at the first entry after it.
 */
module Conversion {
  import opened Calendar

  /** One table row: the UNIX instant a leap second takes effect, and the offset published with it. */
  datatype Leap = Leap(instant: int, offset: int)

  predicate NonDecreasing(t: seq<Leap>) {
    forall i, j :: 0 <= i < j < |t| ==> t[i].instant <= t[j].instant
  }

  predicate StrictlyIncreasing(t: seq<Leap>) {
    forall i, j :: 0 <= i < j < |t| ==> t[i].instant < t[j].instant
  }

  /**
   * The number of entries the early-break loop passes for instant `u`: the
   * length of the longest prefix of the table whose entries are all at or before `u`.
   */
  function LeadingCount(t: seq<Leap>, u: int): (k: nat)
    ensures k <= |t|
    ensures forall j :: 0 <= j < k ==> t[j].instant <= u
    ensures k < |t| ==> u < t[k].instant
  {
    if t == [] || u < t[0].instant then 0 else 1 + LeadingCount(t[1..], u)
  }

  /** The number of entries anywhere in the table at or before `u`. */
  function CountAtOrBefore(t: seq<Leap>, u: int): nat {
    if t == [] then 0 else (if t[0].instant <= u then 1 else 0) + CountAtOrBefore(t[1..], u)
  }

  /** GPS seconds of UNIX instant `u`: the epoch shift plus one second per leap passed. */
  function UnixToGps(t: seq<Leap>, u: int): int {
    u - GPS0 + LeadingCount(t, u)
  }

  /** What the `gps2unix` loop leaves in its running value `x` after walking `t`. */
  function GpsToUnixFrom(t: seq<Leap>, x: int): int {
    if t == [] || x < t[0].instant then x else GpsToUnixFrom(t[1..], x - 1)
  }

  /** UNIX seconds of GPS instant `g`. */
  function GpsToUnix(t: seq<Leap>, g: int): int {
    GpsToUnixFrom(t, g + GPS0)
  }

  /** `unix2gps`: start from the epoch shift and add one per entry until an entry lies after `unix`. */
  method Unix2Gps(table: seq<Leap>, unix: int) returns (gps: int)
    ensures gps == UnixToGps(table, unix)
  {
    gps := unix - GPS0;
    var i := 0;
    while i < |table|
      invariant 0 <= i <= |table|
      invariant forall j :: 0 <= j < i ==> table[j].instant <= unix
      invariant gps == unix - GPS0 + i
    {
      if unix < table[i].instant {
        break;
      }
      gps := gps + 1;
      i := i + 1;
    }
    LeadingCountUnique(table, unix, i);
  }

  /**
   * `gps2unix`: start from the epoch shift and subtract one per entry, each
   * time comparing the entry with the value already decremented.
   */
  method Gps2Unix(table: seq<Leap>, gps: int) returns (unix: int)
    ensures unix == GpsToUnix(table, gps)
  {
    unix := gps + GPS0;
    var i := 0;
    while i < |table|
      invariant 0 <= i <= |table|
      invariant GpsToUnixFrom(table[i..], unix) == GpsToUnix(table, gps)
    {
      if unix < table[i].instant {
        break;
      }
      assert table[i..][1..] == table[i + 1..];
      unix := unix - 1;
      i := i + 1;
    }
  }

  // ---------------------------------------------------------------- the count

  /** The prefix property pins the leading count down. */
  lemma LeadingCountUnique(t: seq<Leap>, u: int, k: nat)
    requires k <= |t|
    requires forall j :: 0 <= j < k ==> t[j].instant <= u
    requires k < |t| ==> u < t[k].instant
    ensures LeadingCount(t, u) == k
  {
  }

  lemma {:induction false} NoneAtOrBefore(t: seq<Leap>, u: int)
    requires forall j :: 0 <= j < |t| ==> u < t[j].instant
    ensures CountAtOrBefore(t, u) == 0
  {
    if t != [] {
      NoneAtOrBefore(t[1..], u);
    }
  }

  /**
   * On a sorted table the loop's early break loses nothing: the leading count
   * is the number of entries at or before `u`.
   */
  lemma {:induction false} LeadingCountIsCount(t: seq<Leap>, u: int)
    requires NonDecreasing(t)
    ensures LeadingCount(t, u) == CountAtOrBefore(t, u)
  {
    if t != [] {
      if u < t[0].instant {
        NoneAtOrBefore(t, u);
      } else {
        LeadingCountIsCount(t[1..], u);
      }
    }
  }

  /** On any table the loop counts at most the entries at or before `u`. */
  lemma {:induction false} LeadingCountAtMostCount(t: seq<Leap>, u: int)
    ensures LeadingCount(t, u) <= CountAtOrBefore(t, u)
  {
    if t != [] {
      LeadingCountAtMostCount(t[1..], u);
    }
  }

  /** A later instant passes at least as many entries. */
  lemma LeadingCountMonotone(t: seq<Leap>, a: int, b: int)
    requires a <= b
    ensures LeadingCount(t, a) <= LeadingCount(t, b)
  {
  }

  /**
   * On a strictly increasing table one more second passes at most one more
   * entry, and exactly one when an entry falls on that second.
   */
  lemma LeadingCountStep(t: seq<Leap>, u: int)
    requires StrictlyIncreasing(t)
    ensures LeadingCount(t, u + 1) <= LeadingCount(t, u) + 1
    ensures LeadingCount(t, u + 1) == LeadingCount(t, u) + 1 <==>
            exists k :: 0 <= k < |t| && t[k].instant == u + 1
  {
    var a, b := LeadingCount(t, u), LeadingCount(t, u + 1);
    LeadingCountMonotone(t, u, u + 1);
    if a + 1 < |t| {
      assert t[a].instant < t[a + 1].instant;
    }
    if exists k :: 0 <= k < |t| && t[k].instant == u + 1 {
      var k :| 0 <= k < |t| && t[k].instant == u + 1;
      assert a <= k;
      assert k < b;
    }
  }

  // ---------------------------------------------------------------- unix2gps

  /** `unix2gps` is strictly increasing on every table: distinct UNIX seconds get distinct GPS seconds. */
  lemma UnixToGpsStrictlyIncreasing(t: seq<Leap>, a: int, b: int)
    requires a < b
    ensures UnixToGps(t, a) < UnixToGps(t, b)
  {
    LeadingCountMonotone(t, a, b);
  }

  /** The loop's `gps - (unix - GPS0)` is the number of table entries at or before `unix`, on a sorted table. */
  lemma UnixToGpsCountsLeaps(t: seq<Leap>, u: int)
    requires NonDecreasing(t)
    ensures UnixToGps(t, u) == u - GPS0 + CountAtOrBefore(t, u)
  {
    LeadingCountIsCount(t, u);
  }

  // ---------------------------------------------------------------- round trips

  lemma {:induction false} GpsToUnixFromUndoesCount(t: seq<Leap>, u: int)
    ensures GpsToUnixFrom(t, u + LeadingCount(t, u)) == u
  {
    if t != [] && t[0].instant <= u {
      GpsToUnixFromUndoesCount(t[1..], u);
    }
  }

  /** `gps2unix(unix2gps(u)) == u` for every instant, on every table, sorted or not. */
  lemma UnixRoundTrip(t: seq<Leap>, u: int)
    ensures GpsToUnix(t, UnixToGps(t, u)) == u
  {
    GpsToUnixFromUndoesCount(t, u);
  }

  lemma {:induction false} GpsToUnixFromBrackets(t: seq<Leap>, x: int)
    requires NonDecreasing(t)
    ensures var r := GpsToUnixFrom(t, x);
            r + LeadingCount(t, r) <= x < r + 1 + LeadingCount(t, r + 1)
  {
    if t != [] && t[0].instant <= x {
      var t' := t[1..];
      GpsToUnixFromBrackets(t', x - 1);
      var r := GpsToUnixFrom(t', x - 1);
      assert GpsToUnixFrom(t, x) == r;
      NothingBeforeFirst(t, r);
      NothingBeforeFirst(t, r + 1);
    }
  }

  /** In a sorted table, an instant before the first entry is before every later one too. */
  lemma NothingBeforeFirst(t: seq<Leap>, v: int)
    requires NonDecreasing(t) && t != []
    ensures v < t[0].instant ==> LeadingCount(t[1..], v) == 0
  {
    if v < t[0].instant && |t| > 1 {
      assert t[1..][0] == t[1];
    }
  }

  /**
   * `gps2unix(g)` is the last UNIX second whose GPS time is at most `g`: its
   * GPS time is at most `g` and the next second's is above `g` (sorted table).
   */
  lemma GpsToUnixBrackets(t: seq<Leap>, g: int)
    requires NonDecreasing(t)
    ensures UnixToGps(t, GpsToUnix(t, g)) <= g < UnixToGps(t, GpsToUnix(t, g) + 1)
  {
    GpsToUnixFromBrackets(t, g + GPS0);
  }

  /**
   * The two conversions form a Galois connection: a UNIX second converts to at
   * most `g` exactly when it is at or before `gps2unix(g)` (sorted table).
   */
  lemma GpsToUnixIsGreatestPreimage(t: seq<Leap>, g: int, u: int)
    requires NonDecreasing(t)
    ensures UnixToGps(t, u) <= g <==> u <= GpsToUnix(t, g)
  {
    var r := GpsToUnix(t, g);
    GpsToUnixBrackets(t, g);
    if u <= r {
      LeadingCountMonotone(t, u, r);
    } else {
      LeadingCountMonotone(t, r + 1, u);
    }
  }

  /** `gps2unix` never runs backwards on a sorted table. */
  lemma GpsToUnixMonotone(t: seq<Leap>, g1: int, g2: int)
    requires NonDecreasing(t) && g1 <= g2
    ensures GpsToUnix(t, g1) <= GpsToUnix(t, g2)
  {
    GpsToUnixBrackets(t, g1);
    GpsToUnixIsGreatestPreimage(t, g2, GpsToUnix(t, g1));
  }

  /**
   * `unix2gps(gps2unix(g))` is `g` or `g - 1` on a strictly increasing table,
   * and it is `g - 1` exactly for the GPS second just before each leap's GPS
   * time: the inserted leap second, which UNIX time cannot name.
   */
  lemma GpsRoundTrip(t: seq<Leap>, g: int)
    requires StrictlyIncreasing(t)
    ensures var back := UnixToGps(t, GpsToUnix(t, g));
            back == g || back == g - 1
    ensures UnixToGps(t, GpsToUnix(t, g)) == g - 1 <==>
            exists k :: 0 <= k < |t| && g == UnixToGps(t, t[k].instant) - 1
  {
    var r := GpsToUnix(t, g);
    GpsToUnixBrackets(t, g);
    LeadingCountStep(t, r);
    if exists k :: 0 <= k < |t| && g == UnixToGps(t, t[k].instant) - 1 {
      var k :| 0 <= k < |t| && g == UnixToGps(t, t[k].instant) - 1;
      RoundTripBeforeLeap(t, g, k);
    }
  }

  /** The GPS second that a leap second skips maps to the Unix second just before the leap. */
  lemma RoundTripBeforeLeap(t: seq<Leap>, g: int, k: int)
    requires StrictlyIncreasing(t) && 0 <= k < |t|
    requires g == UnixToGps(t, t[k].instant) - 1
    ensures GpsToUnix(t, g) == t[k].instant - 1
  {
    var l := t[k].instant;
    LeadingCountStep(t, l - 1);
    assert UnixToGps(t, l) == UnixToGps(t, l - 1) + 2;
    GpsToUnixIsGreatestPreimage(t, g, l - 1);
    GpsToUnixIsGreatestPreimage(t, g, l);
  }

  /** At a leap at UNIX `l`, the GPS seconds of `l - 1` and of the inserted second both map back to `l - 1`. */
  lemma LeapSecondCollapses(t: seq<Leap>, k: nat)
    requires StrictlyIncreasing(t) && k < |t|
    ensures var l := t[k].instant;
            UnixToGps(t, l) == UnixToGps(t, l - 1) + 2 &&
            GpsToUnix(t, UnixToGps(t, l) - 1) == l - 1 &&
            GpsToUnix(t, UnixToGps(t, l - 1)) == l - 1
  {
    var l := t[k].instant;
    LeadingCountStep(t, l - 1);
    var g := UnixToGps(t, l) - 1;
    GpsToUnixIsGreatestPreimage(t, g, l - 1);
    GpsToUnixIsGreatestPreimage(t, g, l);
    UnixRoundTrip(t, l - 1);
  }

  // ---------------------------------------------------------------- the published table

  /**
   * The leap seconds announced in the IETF bulletin after GPS time zero, as
   * the package keeps them (instant and TAI-UTC offset): 1981-07-01 through 2017-01-01.
   */
  const PUBLISHED_LEAPS: seq<Leap> := [
    Leap(362793600, 20), Leap(394329600, 21), Leap(425865600, 22), Leap(489024000, 23),
    Leap(567993600, 24), Leap(631152000, 25), Leap(662688000, 26), Leap(709948800, 27),
    Leap(741484800, 28), Leap(773020800, 29), Leap(820454400, 30), Leap(867715200, 31),
    Leap(915148800, 32), Leap(1136073600, 33), Leap(1230768000, 34), Leap(1341100800, 35),
    Leap(1435708800, 36), Leap(1483228800, 37)
  ]

  lemma PublishedLeapsStrictlyIncreasing()
    ensures StrictlyIncreasing(PUBLISHED_LEAPS)
  {
  }

  /** Reads the leap count of the published table off the two entries around `u`. */
  lemma PublishedLeadingCount(u: int, k: nat)
    requires k <= |PUBLISHED_LEAPS|
    requires k > 0 ==> PUBLISHED_LEAPS[k - 1].instant <= u
    requires k < |PUBLISHED_LEAPS| ==> u < PUBLISHED_LEAPS[k].instant
    ensures LeadingCount(PUBLISHED_LEAPS, u) == k
  {
    PublishedLeapsStrictlyIncreasing();
    LeadingCountUnique(PUBLISHED_LEAPS, u, k);
  }

  /** 2015-12-08T04:54:19Z is GPS 1133585676, in both directions. */
  lemma ConversionVector2015()
    ensures GpsToUnix(PUBLISHED_LEAPS, 1133585676) == 1449550459
    ensures UnixToGps(PUBLISHED_LEAPS, 1449550459) == 1133585676
  {
    PublishedLeadingCount(1449550459, 17);
    UnixRoundTrip(PUBLISHED_LEAPS, 1449550459);
  }

  /** An instant between the 1983 and 1985 leaps: GPS 123456789 is UNIX 439421586. */
  lemma ConversionVectorPast()
    ensures GpsToUnix(PUBLISHED_LEAPS, 123456789) == 439421586
    ensures UnixToGps(PUBLISHED_LEAPS, 439421586) == 123456789
  {
    PublishedLeadingCount(439421586, 3);
    UnixRoundTrip(PUBLISHED_LEAPS, 439421586);
  }

  /**
   * Around the leap inserted at the end of 1993-06-30: GPS 425520007 and
   * 425520008 (the inserted second) both give UNIX 741484799, and UNIX
   * 741484800 is GPS 425520009.
   */
  lemma ConversionVectorsOnLeap()
    ensures GpsToUnix(PUBLISHED_LEAPS, 425520006) == 741484798
    ensures GpsToUnix(PUBLISHED_LEAPS, 425520007) == 741484799
    ensures GpsToUnix(PUBLISHED_LEAPS, 425520008) == 741484799
    ensures GpsToUnix(PUBLISHED_LEAPS, 425520009) == 741484800
    ensures UnixToGps(PUBLISHED_LEAPS, 741484798) == 425520006
    ensures UnixToGps(PUBLISHED_LEAPS, 741484799) == 425520007
    ensures UnixToGps(PUBLISHED_LEAPS, 741484800) == 425520009
  {
    UnixVectorsOnLeap();
    GpsVectorsOnLeap();
  }

  /** The Unix-to-GPS half of the vectors around the 1993-07-01 leap. */
  lemma UnixVectorsOnLeap()
    ensures UnixToGps(PUBLISHED_LEAPS, 741484798) == 425520006
    ensures UnixToGps(PUBLISHED_LEAPS, 741484799) == 425520007
    ensures UnixToGps(PUBLISHED_LEAPS, 741484800) == 425520009
  {
    var l := PUBLISHED_LEAPS[8].instant;
    PublishedAroundLeap8();
    PublishedLeadingCount(l - 2, 8);
    PublishedLeadingCount(l - 1, 8);
    PublishedLeadingCount(l, 9);
  }

  /** The entries on either side of the 1993-07-01 leap. */
  lemma PublishedAroundLeap8()
    ensures PUBLISHED_LEAPS[7].instant == 709948800
    ensures PUBLISHED_LEAPS[8].instant == 741484800
    ensures PUBLISHED_LEAPS[9].instant == 773020800
  {
  }

  /** The GPS-to-Unix half: the skipped GPS second 425520008 lands on the second before the leap. */
  lemma GpsVectorsOnLeap()
    ensures GpsToUnix(PUBLISHED_LEAPS, 425520006) == 741484798
    ensures GpsToUnix(PUBLISHED_LEAPS, 425520007) == 741484799
    ensures GpsToUnix(PUBLISHED_LEAPS, 425520008) == 741484799
    ensures GpsToUnix(PUBLISHED_LEAPS, 425520009) == 741484800
  {
    PublishedLeapsStrictlyIncreasing();
    UnixVectorsOnLeap();
    LeapSecondCollapses(PUBLISHED_LEAPS, 8);
    UnixRoundTrip(PUBLISHED_LEAPS, 741484798);
    UnixRoundTrip(PUBLISHED_LEAPS, 741484800);
  }
}
