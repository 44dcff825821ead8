/**
 * How `gpstime.parse` routes its argument, in the package
 * (gpstime/__init__.py) and in the older gpstime.py: an empty string means
 * "now"; text Python's `float()` accepts is a GPS time; "now" is the clock;
 * anything else goes to an outside date parser (GNU `date` in the package,
 * `dateutil` in gpstime.py), which is not part of this model.
 *
 * The package tests the float's truth value instead of whether the cast
 * succeeded, so a literal whose value is zero takes the date-parser route.
 */
module ParseDispatch {
  import opened PyText

  // ---------------------------------------------------------------- float() literals

  /** Digits with at most one decimal point and at least one digit: `1`, `1.`, `.5`, `1.5`. */
  predicate IsMantissa(m: string) {
    var parts := SplitOn(m, '.');
    |parts| <= 2 && (forall k :: 0 <= k < |parts| ==> AllDigits(parts[k])) &&
    exists k :: 0 <= k < |parts| && parts[k] != []
  }

  /** An exponent after `e`: an optional sign and at least one digit. */
  predicate IsExponent(x: string) {
    IsDigits(x) || (|x| >= 1 && (x[0] == '+' || x[0] == '-') && IsDigits(x[1..]))
  }

  /** The text after the optional sign, as written. */
  function Unsigned(t: string): string {
    if |t| >= 1 && (t[0] == '+' || t[0] == '-') then t[1..] else t
  }

  /** `inf`, `infinity` or `nan`, in any case. */
  predicate IsSpecial(body: string) {
    Lower(body) in ["inf", "infinity", "nan"]
  }

  /** A decimal numeral: a mantissa, optionally followed by `e` or `E` and an exponent. */
  predicate IsDecimal(body: string) {
    var parts := SplitOn(Lower(body), 'e');
    (|parts| == 1 && IsMantissa(parts[0])) ||
    (|parts| == 2 && IsMantissa(parts[0]) && IsExponent(parts[1]))
  }

  /** Text `float()` converts without raising (surrounding whitespace allowed). */
  predicate IsFloatLiteral(s: string) {
    var body := Unsigned(Strip(s));
    IsSpecial(body) || IsDecimal(body)
  }

  /** A float literal whose value is zero (of either sign): its mantissa has no digit but `0`. */
  predicate IsZeroFloat(s: string) {
    var body := Unsigned(Strip(s));
    var mantissa := SplitOn(Lower(body), 'e')[0];
    IsDecimal(body) && forall i :: 0 <= i < |mantissa| ==> mantissa[i] == '0' || mantissa[i] == '.'
  }

  // ---------------------------------------------------------------- the two dispatchers

  /** Where `parse` sends its argument. */
  datatype Route = FromGps(text: string) | Now | External(text: string)

  /** The empty string stands for "now". */
  function Defaulted(s: string): string {
    if s == [] then "now" else s
  }

  /** gpstime/__init__.py `parse`: GPS time only when the float is truthy (non-zero). */
  function PackageParse(s: string): (r: Route)
    ensures r.FromGps? <==> IsFloatLiteral(Defaulted(s)) && !IsZeroFloat(Defaulted(s))
    ensures r.Now? <==> Defaulted(s) == "now"
    ensures r.FromGps? || r.External? ==> r.text == Defaulted(s)
  {
    NowIsNotFloat();
    var t := Defaulted(s);
    if IsFloatLiteral(t) && !IsZeroFloat(t) then FromGps(t)
    else if t == "now" then Now
    else External(t)
  }

  /** gpstime.py `parse`: GPS time whenever the cast to float succeeds. */
  function LegacyParse(s: string): (r: Route)
    ensures r.FromGps? <==> IsFloatLiteral(Defaulted(s))
    ensures r.Now? <==> Defaulted(s) == "now"
    ensures r.FromGps? || r.External? ==> r.text == Defaulted(s)
  {
    NowIsNotFloat();
    var t := Defaulted(s);
    if IsFloatLiteral(t) then FromGps(t)
    else if t == "now" then Now
    else External(t)
  }

  /** The package's `parse` as its documentation describes it: every float-castable string is GPS time. */
  function PackageParseIntended(s: string): (r: Route)
    ensures r.FromGps? <==> IsFloatLiteral(Defaulted(s))
    ensures r.Now? <==> Defaulted(s) == "now"
  {
    NowIsNotFloat();
    var t := Defaulted(s);
    if IsFloatLiteral(t) then FromGps(t)
    else if t == "now" then Now
    else External(t)
  }

  // ---------------------------------------------------------------- lemmas

  /** "now" is not a float literal, so the clock branch is reachable in both dispatchers. */
  lemma NowIsNotFloat()
    ensures !IsFloatLiteral("now")
  {
    NowIsItsOwnBody();
    NowIsNotSpecial();
    NowIsNotDecimal();
  }

  lemma NowIsItsOwnBody()
    ensures Unsigned(Strip("now")) == "now"
  {
    UnsignedBody("now");
  }

  /** Text with no sign and no surrounding whitespace is its own body. */
  lemma UnsignedBody(w: string)
    requires w != [] && !IsSpace(w[0]) && !IsSpace(w[|w| - 1]) && w[0] != '+' && w[0] != '-'
    ensures Unsigned(Strip(w)) == w
  {
    StripUnpadded(w);
  }

  lemma NowIsNotSpecial()
    ensures !IsSpecial("now")
  {
    assert Lower("now") == "now";
  }

  lemma NowIsNotDecimal()
    ensures !IsDecimal("now")
  {
    assert Lower("now") == "now";
    NoSplitWithout("now", 'e');
    NowIsNotMantissa();
  }

  lemma NowIsNotMantissa()
    ensures !IsMantissa("now")
  {
    NoSplitWithout("now", '.');
    assert !AllDigits("now") by {
      assert !IsDigit("now"[0]);
    }
  }

  /** A zero-valued literal is a float literal: only castable text is tested for zero. */
  lemma ZeroFloatIsFloatLiteral(s: string)
    ensures IsZeroFloat(s) ==> IsFloatLiteral(s)
  {
  }

  /**
   * `float()` takes an optional sign before the number: a sign changes
   * neither whether the text converts nor whether its value is zero.
   */
  lemma SignIgnored(w: string, sign: char)
    requires sign == '+' || sign == '-'
    requires w != [] && !IsSpace(w[0]) && !IsSpace(w[|w| - 1]) && w[0] != '+' && w[0] != '-'
    ensures IsFloatLiteral([sign] + w) == IsFloatLiteral(w)
    ensures IsZeroFloat([sign] + w) == IsZeroFloat(w)
  {
    var t := [sign] + w;
    assert t[|t| - 1] == w[|w| - 1];
    StripUnpadded(t);
    assert Unsigned(t) == w;
    UnsignedBody(w);
  }

  /** An empty argument is read as "now" by both. */
  lemma EmptyMeansNow()
    ensures PackageParse("") == Now && LegacyParse("") == Now
  {
    NowIsNotFloat();
  }

  /**
   * The two dispatchers differ exactly on float literals whose value is
   * zero: gpstime.py reads them as GPS time, the package hands them to the
   * date parser.
   */
  lemma DispatchersDifferOnlyAtZero(s: string)
    ensures PackageParse(s) != LegacyParse(s) <==> IsFloatLiteral(Defaulted(s)) && IsZeroFloat(Defaulted(s))
  {
    NowIsNotFloat();
  }

  /** The corrected dispatcher routes everything as gpstime.py does. */
  lemma IntendedMatchesLegacy(s: string)
    ensures PackageParseIntended(s) == LegacyParse(s)
  {
  }

  /** The decimal text of an integer is a float literal, and a zero one exactly when the integer is 0. */
  lemma IntegerText(n: nat)
    ensures IsFloatLiteral(NatToString(n))
    ensures IsZeroFloat(NatToString(n)) <==> n == 0
  {
    var d := NatToString(n);
    NatToStringValue(n);
    assert forall i :: 0 <= i < |d| ==> !IsSpace(d[i]) && d[i] != 'e' && d[i] != '.' by {
      forall i | 0 <= i < |d|
        ensures !IsSpace(d[i]) && d[i] != 'e' && d[i] != '.'
      {
        assert IsDigit(d[i]);
      }
    }
    StripUnpadded(d);
    assert Unsigned(d) == d;
    LowerOfDigits(d);
    NoSplitWithout(d, 'e');
    NoSplitWithout(d, '.');
    assert IsMantissa(d) by {
      assert SplitOn(d, '.')[0] == d;
    }
    if n == 0 {
      assert d == "0";
    } else {
      assert d[0] != '0' && d[0] != '.';
    }
  }

  lemma LowerOfDigits(d: string)
    requires AllDigits(d)
    ensures Lower(d) == d
  {
    if d != [] {
      assert AllDigits(d[1..]);
      LowerOfDigits(d[1..]);
    }
  }

  /** GPS seconds written as a positive integer go to the GPS branch in both modules. */
  lemma PositiveIntegersAreGps(n: nat)
    requires n > 0
    ensures PackageParse(NatToString(n)) == FromGps(NatToString(n))
    ensures LegacyParse(NatToString(n)) == FromGps(NatToString(n))
  {
    IntegerText(n);
  }

  /** "0" is GPS time zero to gpstime.py but goes to the date parser in the package. */
  lemma ZeroIsNotGpsInPackage()
    ensures PackageParse("0") == External("0")
    ensures LegacyParse("0") == FromGps("0")
    ensures PackageParseIntended("0") == FromGps("0")
  {
    IntegerText(0);
    assert NatToString(0) == "0";
  }
}
