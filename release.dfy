/**
 * The version arithmetic of release.py: `vers_from_str`, which reads a
 * `major.minor.rev+build` string, the bump a major, minor or rev release
 * applies, and the release and development version strings written to the
 * version file. Git, the build of the distributions and the prompt are
 * outside this model; the answer to the prompt and the existing tags are
 * parameters.
 */
module Release {
  import opened Wrappers
  import opened PyText

  /** What `vers_from_str` returns: three integers and the build suffix with its `+`, or "". */
  datatype Version = Version(major: int, minor: int, rev: int, build: string)

  /** The ValueErrors `vers_from_str` raises. */
  datatype VersionError = CouldNotParse(text: string) | NotAnInteger(text: string)

  /**
   * `vers_from_str`: the build is `+` and the text between the first and
   * second `+`; before the first `+` there must be exactly three
   * dot-separated fields, each of which `int()` accepts.
   */
  function VersFromStr(s: string): (r: Result<Version, VersionError>)
    ensures var f := SplitOn(SplitOn(s, '+')[0], '.');
            r.Success? <==> |f| == 3 && PyInt(f[0]).Some? && PyInt(f[1]).Some? && PyInt(f[2]).Some?
    ensures |SplitOn(SplitOn(s, '+')[0], '.')| != 3 ==> r == Failure(CouldNotParse(s))
    ensures r.Success? ==> (r.value.build == "" <==> '+' !in s)
  {
    var vsplit := SplitOn(s, '+');
    var build := if |vsplit| > 1 then "+" + vsplit[1] else "";
    var fields := SplitOn(vsplit[0], '.');
    if |fields| != 3 then Failure(CouldNotParse(s))
    else if PyInt(fields[0]).None? then Failure(NotAnInteger(fields[0]))
    else if PyInt(fields[1]).None? then Failure(NotAnInteger(fields[1]))
    else if PyInt(fields[2]).None? then Failure(NotAnInteger(fields[2]))
    else Success(Version(PyInt(fields[0]).value, PyInt(fields[1]).value, PyInt(fields[2]).value, build))
  }

  /** `'{}.{}.{}'.format(major, minor, rev)`. */
  function FormatVersion(major: int, minor: int, rev: int): string {
    Join([IntToString(major), IntToString(minor), IntToString(rev)], '.')
  }

  datatype ReleaseKind = Major | Minor | Rev

  /** The version a release of the given kind moves to; the build suffix is dropped. */
  function Bump(v: Version, kind: ReleaseKind): (r: Version)
    ensures r.build == ""
  {
    match kind
    case Major => Version(v.major + 1, 0, 0, "")
    case Minor => Version(v.major, v.minor + 1, 0, "")
    case Rev => Version(v.major, v.minor, v.rev + 1, "")
  }

  /** Semantic-version precedence on the three numbers. */
  predicate Before(v: Version, w: Version) {
    v.major < w.major ||
    (v.major == w.major && (v.minor < w.minor || (v.minor == w.minor && v.rev < w.rev)))
  }

  /** The component a release of the given kind raises: the others to its left stay, those to its right may be anything. */
  predicate RaisesAt(v: Version, w: Version, kind: ReleaseKind) {
    match kind
    case Major => w.major > v.major
    case Minor => w.major == v.major && w.minor > v.minor
    case Rev => w.major == v.major && w.minor == v.minor && w.rev > v.rev
  }

  predicate NonNegative(v: Version) {
    v.major >= 0 && v.minor >= 0 && v.rev >= 0
  }

  /** What the release steps of `main` leave behind. */
  datatype ReleaseError = BadVersion(error: VersionError) | Aborted | TagExists(version: string)

  /**
   * The version `main` releases: the current numbers raised by the bump the
   * positional `release` argument names, or, when argparse left it `None`,
   * the current numbers as they are. The build is dropped either way.
   */
  function ReleaseTarget(v: Version, release: Option<ReleaseKind>): (n: Version)
    ensures n.build == ""
    ensures release.None? ==> (n.major, n.minor, n.rev) == (v.major, v.minor, v.rev)
    ensures release.Some? ==> n == Bump(v, release.value)
  {
    match release
    case None => Version(v.major, v.minor, v.rev, "")
    case Some(kind) => Bump(v, kind)
  }

  /**
   * `main` for a release: the new version (written, committed and tagged)
   * and the development version written after it. It stops when the
   * current version does not parse, when the answer is not exactly `yes`,
   * or when the tag already exists.
   */
  function PlanRelease(current: string, release: Option<ReleaseKind>, answer: string, tags: seq<string>)
    : (r: Result<(string, string), ReleaseError>)
    ensures r.Success? ==> answer == "yes" && r.value.0 !in tags && r.value.1 == r.value.0 + "+dev0"
    ensures VersFromStr(current).Failure? ==> r == Failure(BadVersion(VersFromStr(current).error))
    ensures VersFromStr(current).Success? && answer != "yes" ==> r == Failure(Aborted)
    ensures VersFromStr(current).Success? && answer == "yes" ==>
              var n := ReleaseTarget(VersFromStr(current).value, release);
              var v := FormatVersion(n.major, n.minor, n.rev);
              (v in tags ==> r == Failure(TagExists(v))) && (v !in tags ==> r == Success((v, v + "+dev0")))
  {
    match VersFromStr(current)
    case Failure(e) => Failure(BadVersion(e))
    case Success(v) =>
      var n := ReleaseTarget(v, release);
      var version := FormatVersion(n.major, n.minor, n.rev);
      if answer != "yes" then Failure(Aborted)
      else if version in tags then Failure(TagExists(version))
      else Success((version, version + "+dev0"))
  }

  /** `main` with a non-empty `--set`: the string is checked by `vers_from_str` and then written as given. */
  function SetVersion(s: string): (r: Result<string, VersionError>)
    requires s != ""
    ensures r.Success? ==> r.value == s && VersFromStr(s).Success?
    ensures r.Failure? ==> VersFromStr(s).Failure?
  {
    match VersFromStr(s)
    case Failure(e) => Failure(e)
    case Success(_) => Success(s)
  }

  /** What a run of `main` writes to the version file: the `--set` text, or a release and its development version. */
  datatype Written = SetFile(text: string) | Released(version: string, dev: string)

  /** Why a run of `main` stops. */
  datatype MainError = SetRefused(versionError: VersionError) | ReleaseRefused(releaseError: ReleaseError)

  /**
   * `main` after argparse: `--set` and the positional `release` are
   * exclusive and one is required, but `if args.set:` tests the string's
   * truth, so an empty `--set` falls through to the release steps with
   * `release` left `None`.
   */
  function Main(setText: Option<string>, release: Option<ReleaseKind>, current: string, answer: string, tags: seq<string>)
    : (r: Result<Written, MainError>)
    ensures setText.Some? && setText.value != "" ==>
              (r.Success? <==> VersFromStr(setText.value).Success?) &&
              (r.Success? ==> r.value == SetFile(setText.value))
    ensures (setText.None? || setText.value == "") ==>
              (r.Success? <==> PlanRelease(current, release, answer, tags).Success?) &&
              (r.Success? ==> r.value == Released(PlanRelease(current, release, answer, tags).value.0, PlanRelease(current, release, answer, tags).value.1))
  {
    if setText.Some? && setText.value != "" then
      match SetVersion(setText.value)
      case Failure(e) => Failure(SetRefused(e))
      case Success(s) => Success(SetFile(s))
    else
      match PlanRelease(current, release, answer, tags)
      case Failure(e) => Failure(ReleaseRefused(e))
      case Success(p) => Success(Released(p.0, p.1))
  }

  // ---------------------------------------------------------------- lemmas

  lemma IntTextHasNoSeparator(i: int)
    ensures '.' !in IntToString(i) && '+' !in IntToString(i)
  {
    var t := IntToString(i);
    IntToStringChars(i);
    forall k | 0 <= k < |t|
      ensures t[k] != '.' && t[k] != '+'
    {
      assert IsDigit(t[k]) || t[k] == '-';
    }
  }

  lemma JoinThree(a: string, b: string, c: string, sep: char)
    ensures Join([a, b, c], sep) == a + [sep] + b + [sep] + c
  {
    assert [a, b, c][1..] == [b, c];
    assert [b, c][1..] == [c];
    assert Join([b, c], sep) == b + [sep] + c;
  }

  lemma FormattedFields(major: int, minor: int, rev: int)
    ensures '+' !in FormatVersion(major, minor, rev)
    ensures SplitOn(FormatVersion(major, minor, rev), '.') == [IntToString(major), IntToString(minor), IntToString(rev)]
  {
    IntTextHasNoSeparator(major);
    IntTextHasNoSeparator(minor);
    IntTextHasNoSeparator(rev);
    JoinThree(IntToString(major), IntToString(minor), IntToString(rev), '.');
    SplitOnJoin([IntToString(major), IntToString(minor), IntToString(rev)], '.');
  }

  lemma NumbersReadBack(major: int, minor: int, rev: int)
    ensures PyInt(IntToString(major)) == Some(major)
    ensures PyInt(IntToString(minor)) == Some(minor)
    ensures PyInt(IntToString(rev)) == Some(rev)
  {
    PyIntOfIntToString(major);
    PyIntOfIntToString(minor);
    PyIntOfIntToString(rev);
  }

  /** Splitting `f + "+" + tail` at `+` gives `f` and then the pieces of `tail`. */
  lemma {:induction false} SplitAfterFirstPlus(f: string, tail: string)
    requires '+' !in f
    ensures SplitOn(f + "+" + tail, '+') == [f] + SplitOn(tail, '+')
  {
    var parts := [f] + SplitOn(tail, '+');
    assert parts[1..] == SplitOn(tail, '+');
    assert Join(parts, '+') == f + "+" + tail;
    SplitOnJoin(parts, '+');
  }

  /** `vers_from_str` reads back what `'{}.{}.{}'.format` writes. */
  lemma VersionRoundTrip(major: int, minor: int, rev: int)
    ensures VersFromStr(FormatVersion(major, minor, rev)) == Success(Version(major, minor, rev, ""))
  {
    FormattedFields(major, minor, rev);
    NumbersReadBack(major, minor, rev);
    NoSplitWithout(FormatVersion(major, minor, rev), '+');
  }

  /**
   * With a build suffix the numbers read back the same, and the build is
   * the `+` and the text up to the next `+` (anything after that is
   * dropped, not rejected).
   */
  lemma BuildIsFirstSegment(major: int, minor: int, rev: int, tail: string)
    ensures VersFromStr(FormatVersion(major, minor, rev) + "+" + tail)
            == Success(Version(major, minor, rev, "+" + SplitOn(tail, '+')[0]))
  {
    var f := FormatVersion(major, minor, rev);
    FormattedFields(major, minor, rev);
    NumbersReadBack(major, minor, rev);
    SplitAfterFirstPlus(f, tail);
    var vsplit := SplitOn(f + "+" + tail, '+');
    assert vsplit[0] == f && vsplit[1] == SplitOn(tail, '+')[0];
  }

  /** A version with two fields, such as "1.2", is refused. */
  lemma TwoFieldsRefused()
    ensures VersFromStr("1.2") == Failure(CouldNotParse("1.2"))
  {
    NoSplitWithout("1.2", '+');
    assert Join(["1", "2"], '.') == "1.2";
    SplitOnJoin(["1", "2"], '.');
  }

  /**
   * A bump moves to a later version, raising exactly the component its
   * kind names; among versions with non-negative numbers it is the earliest
   * such version.
   */
  lemma BumpIsNextRelease(v: Version, kind: ReleaseKind)
    ensures Before(v, Bump(v, kind)) && RaisesAt(v, Bump(v, kind), kind)
    ensures forall w :: NonNegative(w) && RaisesAt(v, w, kind) ==> !Before(w, Bump(v, kind))
  {
  }

  /** The release version reads back as the bumped version and the development version as the same with build "+dev0". */
  lemma ReleaseVersionsReadBack(current: string, kind: ReleaseKind, answer: string, tags: seq<string>)
    requires PlanRelease(current, Some(kind), answer, tags).Success?
    ensures var n := Bump(VersFromStr(current).value, kind);
            var r := PlanRelease(current, Some(kind), answer, tags).value;
            VersFromStr(r.0) == Success(n) &&
            VersFromStr(r.1) == Success(n.(build := "+dev0"))
  {
    var n := Bump(VersFromStr(current).value, kind);
    var f := FormatVersion(n.major, n.minor, n.rev);
    assert PlanRelease(current, Some(kind), answer, tags).value == (f, f + "+dev0");
    VersionRoundTrip(n.major, n.minor, n.rev);
    DevBuild(n.major, n.minor, n.rev);
  }

  /** The development version written after a release reads back with build "+dev0". */
  lemma DevBuild(major: int, minor: int, rev: int)
    ensures VersFromStr(FormatVersion(major, minor, rev) + "+dev0") == Success(Version(major, minor, rev, "+dev0"))
  {
    var build := "+dev0";
    assert build[1..] == ['d', 'e', 'v', '0'];
    PlainBuild(major, minor, rev, build);
  }

  /** A build suffix without a second `+` reads back whole. */
  lemma PlainBuild(major: int, minor: int, rev: int, build: string)
    requires |build| >= 1 && build[0] == '+' && '+' !in build[1..]
    ensures VersFromStr(FormatVersion(major, minor, rev) + build) == Success(Version(major, minor, rev, build))
  {
    var f := FormatVersion(major, minor, rev);
    var tail := build[1..];
    assert build == "+" + tail;
    assert f + build == f + "+" + tail;
    NoSplitWithout(tail, '+');
    BuildIsFirstSegment(major, minor, rev, tail);
  }

  /**
   * A development version such as "2.0.1+dev0" releases as the version
   * its numbers name, raised by the release kind: the build is forgotten.
   */
  lemma ReleaseFromDevVersion(major: int, minor: int, rev: int)
    ensures PlanRelease(FormatVersion(major, minor, rev) + "+dev0", Some(Rev), "yes", []) ==
            Success((FormatVersion(major, minor, rev + 1), FormatVersion(major, minor, rev + 1) + "+dev0"))
  {
    var current := FormatVersion(major, minor, rev) + "+dev0";
    DevBuild(major, minor, rev);
    assert VersFromStr(current).value == Version(major, minor, rev, "+dev0");
    assert ReleaseTarget(Version(major, minor, rev, "+dev0"), Some(Rev)) == Version(major, minor, rev + 1, "");
  }

  /**
   * An empty `--set` on a development version is not refused: `main` goes on
   * to release the current numbers unchanged, with the same development
   * version written after them.
   */
  lemma EmptySetReleasesUnbumped(major: int, minor: int, rev: int, tags: seq<string>)
    requires FormatVersion(major, minor, rev) !in tags
    ensures var f := FormatVersion(major, minor, rev);
            Main(Some(""), None, f + "+dev0", "yes", tags) == Success(Released(f, f + "+dev0"))
  {
    DevBuild(major, minor, rev);
  }
}
