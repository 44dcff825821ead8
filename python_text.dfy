/**
 * The few pieces of Python's `str` and `int` behaviour that the leap-table
 * parsers and the release script rely on: `str.strip()`, `str.split()`,
 * `str.split(sep)`, `str.upper()` and `str.lower()` on ASCII letters, `int(text)` and `str(int)`.
 */
module PyText {
  import opened Wrappers

  /** The characters Python's `str.isspace()` accepts (the separators of `split()` and `strip()`). */
  predicate IsSpace(c: char) {
    c == ' ' || ('\t' <= c <= '\r') || ('\U{1C}' <= c <= '\U{1F}')
    || c == '\U{85}' || c == '\U{A0}' || c == '\U{1680}' || ('\U{2000}' <= c <= '\U{200A}')
    || c == '\U{2028}' || c == '\U{2029}' || c == '\U{202F}' || c == '\U{205F}' || c == '\U{3000}'
  }

  predicate NoSpace(s: string) {
    forall i :: 0 <= i < |s| ==> !IsSpace(s[i])
  }

  predicate IsDigit(c: char) {
    '0' <= c <= '9'
  }

  /** ASCII decimal digits only (possibly none). */
  predicate AllDigits(s: string) {
    forall i :: 0 <= i < |s| ==> IsDigit(s[i])
  }

  /** A non-empty run of ASCII decimal digits. */
  predicate IsDigits(s: string) {
    |s| > 0 && forall i :: 0 <= i < |s| ==> IsDigit(s[i])
  }

  // ---------------------------------------------------------------- strip

  /** The end of the run of whitespace that starts at `i`. */
  function SpaceRunEnd(s: string, i: nat): (k: nat)
    requires i <= |s|
    ensures i <= k <= |s|
    ensures forall j :: i <= j < k ==> IsSpace(s[j])
    ensures k < |s| ==> !IsSpace(s[k])
    decreases |s| - i
  {
    if i == |s| || !IsSpace(s[i]) then i else SpaceRunEnd(s, i + 1)
  }

  /** The start of the run of whitespace that ends at `j`, looking no further back than `lo`. */
  function SpaceRunStart(s: string, lo: nat, j: nat): (k: nat)
    requires lo <= j <= |s|
    ensures lo <= k <= j
    ensures forall m :: k <= m < j ==> IsSpace(s[m])
    ensures k > lo ==> !IsSpace(s[k - 1])
    decreases j
  {
    if j == lo || !IsSpace(s[j - 1]) then j else SpaceRunStart(s, lo, j - 1)
  }

  /** Python's `s.strip()`: drops leading and trailing whitespace, nothing else. */
  function Strip(s: string): (r: string)
    ensures r == [] || (!IsSpace(r[0]) && !IsSpace(r[|r| - 1]))
  {
    var a := SpaceRunEnd(s, 0);
    s[a..SpaceRunStart(s, a, |s|)]
  }

  /** Text with no whitespace at either end is left as it is by `strip()`. */
  lemma StripUnpadded(s: string)
    requires s == [] || (!IsSpace(s[0]) && !IsSpace(s[|s| - 1]))
    ensures Strip(s) == s
  {
  }

  /**
   * `strip()` keeps a middle slice of its argument: everything cut off on
   * either side is whitespace, and together with the contract of `Strip`
   * (no whitespace at either end of the result) nothing more is cut. Text
   * made only of whitespace strips to the empty string.
   */
  lemma StripDropsSurroundingSpace(s: string)
    ensures exists a, b :: 0 <= a <= b <= |s| && Strip(s) == s[a..b] &&
              (forall i :: 0 <= i < a ==> IsSpace(s[i])) && (forall i :: b <= i < |s| ==> IsSpace(s[i]))
    ensures Strip(s) == [] <==> forall i :: 0 <= i < |s| ==> IsSpace(s[i])
  {
    var a := SpaceRunEnd(s, 0);
    var b := SpaceRunStart(s, a, |s|);
    assert Strip(s) == s[a..b];
    if Strip(s) != [] {
      assert !IsSpace(s[a]);
    }
  }

  // ---------------------------------------------------------------- split()

  /** The end of the word that starts at or after `i`: the first whitespace at or after `i`, or |s|. */
  function WordEnd(s: string, i: nat): (k: nat)
    requires i <= |s|
    ensures i <= k <= |s|
    ensures forall j :: i <= j < k ==> !IsSpace(s[j])
    ensures k < |s| ==> IsSpace(s[k])
    decreases |s| - i
  {
    if i == |s| || IsSpace(s[i]) then i else WordEnd(s, i + 1)
  }

  /** Python's `s.split()` with no separator: the maximal runs of non-whitespace, in order. */
  function Split(s: string): (r: seq<string>)
    ensures forall i :: 0 <= i < |r| ==> r[i] != [] && NoSpace(r[i])
  {
    SplitFrom(s, 0)
  }

  /** The words of `s[i..]`. */
  function SplitFrom(s: string, i: nat): (r: seq<string>)
    requires i <= |s|
    ensures forall k :: 0 <= k < |r| ==> r[k] != [] && NoSpace(r[k])
    decreases |s| - i
  {
    if i == |s| then []
    else if IsSpace(s[i]) then SplitFrom(s, i + 1)
    else
      var k := WordEnd(s, i);
      [s[i..k]] + SplitFrom(s, k)
  }

  /** Splitting a word followed by whitespace and more text puts that word first. */
  lemma SplitWordThenRest(w: string, gap: string, rest: string)
    requires w != [] && NoSpace(w)
    requires gap != [] && forall i :: 0 <= i < |gap| ==> IsSpace(gap[i])
    ensures Split(w + gap + rest) == [w] + Split(rest)
  {
    var s := w + gap + rest;
    assert s[|w|] == gap[0];
    WordEndAt(s, 0, |w|);
    assert s[0..|w|] == w;
    SkipSpacesFrom(s, |w|, |w| + |gap|);
    assert s == (w + gap) + rest;
    SplitFromShift(w + gap, rest, 0);
  }

  lemma {:induction false} WordEndAt(s: string, i: nat, k: nat)
    requires i <= k < |s|
    requires forall j :: i <= j < k ==> !IsSpace(s[j])
    requires IsSpace(s[k])
    ensures WordEnd(s, i) == k
    decreases k - i
  {
    if i < k {
      WordEndAt(s, i + 1, k);
    }
  }

  /** Text made only of whitespace has no words. */
  lemma BlankSplitsToNothing(s: string)
    requires forall i :: 0 <= i < |s| ==> IsSpace(s[i])
    ensures Split(s) == []
  {
    SkipSpacesFrom(s, 0, |s|);
  }

  /** Whitespace between `i` and `k` contributes no word. */
  lemma {:induction false} SkipSpacesFrom(s: string, i: nat, k: nat)
    requires i <= k <= |s|
    requires forall j :: i <= j < k ==> IsSpace(s[j])
    ensures SplitFrom(s, i) == SplitFrom(s, k)
    decreases k - i
  {
    if i < k {
      SkipSpacesFrom(s, i + 1, k);
    }
  }

  /** A word of `q` ends at the same place when `q` is preceded by `p`. */
  lemma {:induction false} WordEndShift(p: string, q: string, j: nat)
    requires j <= |q|
    ensures WordEnd(p + q, |p| + j) == |p| + WordEnd(q, j)
    decreases |q| - j
  {
    if j < |q| {
      assert (p + q)[|p| + j] == q[j];
      if !IsSpace(q[j]) {
        WordEndShift(p, q, j + 1);
      }
    }
  }

  /** The words of a suffix do not depend on what precedes it. */
  lemma {:induction false} SplitFromShift(p: string, q: string, j: nat)
    requires j <= |q|
    ensures SplitFrom(p + q, |p| + j) == SplitFrom(q, j)
    decreases |q| - j
  {
    var s := p + q;
    if j < |q| {
      assert s[|p| + j] == q[j];
      if IsSpace(q[j]) {
        SplitFromShift(p, q, j + 1);
      } else {
        var k := WordEnd(q, j);
        WordEndShift(p, q, j);
        assert s[|p| + j..|p| + k] == q[j..k];
        SplitFromShift(p, q, k);
      }
    }
  }

  /** A single word splits to itself. */
  lemma WordSplitsToItself(w: string)
    requires w != [] && NoSpace(w)
    ensures Split(w) == [w]
  {
    assert !IsSpace(w[0]);
    WordEndWhole(w, 0);
    assert w[0..|w|] == w;
    assert SplitFrom(w, |w|) == [];
  }

  /** Non-empty words without whitespace. */
  predicate AllWords(ws: seq<string>) {
    forall i :: 0 <= i < |ws| ==> ws[i] != [] && NoSpace(ws[i])
  }

  /**
   * Words written with a tab between each pair: the text starts with the
   * first word and ends with the last, so it has no surrounding whitespace,
   * and `split()` gives the words back.
   */
  lemma {:induction false} SplitTabJoined(ws: seq<string>)
    requires |ws| >= 1 && AllWords(ws)
    ensures var s := Join(ws, '\t');
            s != [] && s[0] == ws[0][0] && s[|s| - 1] == ws[|ws| - 1][|ws[|ws| - 1]| - 1]
    ensures Split(Join(ws, '\t')) == ws
    decreases |ws|
  {
    if |ws| == 1 {
      WordSplitsToItself(ws[0]);
    } else {
      var rest := Join(ws[1..], '\t');
      SplitTabJoined(ws[1..]);
      assert Join(ws, '\t') == ws[0] + "\t" + rest;
      assert IsSpace('\t');
      SplitWordThenRest(ws[0], "\t", rest);
      assert [ws[0]] + ws[1..] == ws;
    }
  }

  lemma {:induction false} WordEndWhole(s: string, i: nat)
    requires i <= |s| && forall j :: i <= j < |s| ==> !IsSpace(s[j])
    ensures WordEnd(s, i) == |s|
    decreases |s| - i
  {
    if i < |s| {
      WordEndWhole(s, i + 1);
    }
  }

  // ---------------------------------------------------------------- split(sep)

  /** The index of the first occurrence of `c` in `s`. */
  function IndexOf(s: string, c: char): (i: nat)
    requires c in s
    ensures i < |s| && s[i] == c && c !in s[..i]
  {
    if s[0] == c then 0 else IndexOf(s[1..], c) + 1
  }

  lemma {:induction false} IndexOfAt(s: string, c: char, k: nat)
    requires k < |s| && s[k] == c && c !in s[..k]
    ensures IndexOf(s, c) == k
  {
    if k > 0 {
      assert s[0] == s[..k][0];
      assert s[1..][..k - 1] == s[..k][1..];
      IndexOfAt(s[1..], c, k - 1);
    }
  }

  /** The inverse of `split(sep)`: `sep.join(parts)`. */
  function Join(parts: seq<string>, sep: char): string
  {
    if parts == [] then []
    else if |parts| == 1 then parts[0]
    else parts[0] + [sep] + Join(parts[1..], sep)
  }

  /**
   * Python's `s.split(sep)` for a one-character separator: the text between
   * consecutive separators, so that joining the parts with `sep` gives `s` back.
   */
  function SplitOn(s: string, sep: char): (r: seq<string>)
    ensures |r| >= 1
    ensures forall i :: 0 <= i < |r| ==> sep !in r[i]
    ensures Join(r, sep) == s
    decreases |s|
  {
    if sep !in s then [s]
    else
      var i := IndexOf(s, sep);
      var rest := SplitOn(s[i + 1..], sep);
      assert s == s[..i] + [sep] + s[i + 1..];
      [s[..i]] + rest
  }

  /** `split(sep)` undoes `sep.join(parts)` whenever no part holds the separator. */
  lemma {:induction false} SplitOnJoin(parts: seq<string>, sep: char)
    requires |parts| >= 1
    requires forall i :: 0 <= i < |parts| ==> sep !in parts[i]
    ensures SplitOn(Join(parts, sep), sep) == parts
    decreases |parts|
  {
    if |parts| > 1 {
      var s := Join(parts, sep);
      var p := parts[0];
      assert s == p + [sep] + Join(parts[1..], sep);
      assert s[|p|] == sep;
      assert s[..|p|] == p;
      IndexOfAt(s, sep, |p|);
      assert s[|p| + 1..] == Join(parts[1..], sep);
      SplitOnJoin(parts[1..], sep);
    }
  }

  /** Text without the separator splits into itself alone. */
  lemma NoSplitWithout(s: string, c: char)
    requires c !in s
    ensures SplitOn(s, c) == [s]
  {
  }

  // ---------------------------------------------------------------- upper()

  function UpperChar(c: char): char {
    if 'a' <= c <= 'z' then (c as int - 'a' as int + 'A' as int) as char else c
  }

  /** `s.upper()` restricted to ASCII letters. */
  function Upper(s: string): (r: string)
    ensures |r| == |s|
    ensures forall i :: 0 <= i < |s| ==> r[i] == UpperChar(s[i])
  {
    if s == [] then [] else [UpperChar(s[0])] + Upper(s[1..])
  }

  function LowerChar(c: char): char {
    if 'A' <= c <= 'Z' then (c as int - 'A' as int + 'a' as int) as char else c
  }

  /** `s.lower()` restricted to ASCII letters. */
  function Lower(s: string): (r: string)
    ensures |r| == |s|
    ensures forall i :: 0 <= i < |s| ==> r[i] == LowerChar(s[i])
  {
    if s == [] then [] else [LowerChar(s[0])] + Lower(s[1..])
  }

  // ---------------------------------------------------------------- int() and str()

  function DigitValue(c: char): nat
    requires IsDigit(c)
  {
    c as int - '0' as int
  }

  function DigitChar(d: nat): (c: char)
    requires d < 10
    ensures IsDigit(c) && DigitValue(c) == d
  {
    ('0' as int + d) as char
  }

  /** The value of a run of decimal digits, read most significant first. */
  function DigitsValue(s: string): nat
    requires forall i :: 0 <= i < |s| ==> IsDigit(s[i])
  {
    PrefixValue(s, |s|)
  }

  /** The value of the first `n` digits of `s`. */
  function PrefixValue(s: string, n: nat): nat
    requires n <= |s| && forall i :: 0 <= i < n ==> IsDigit(s[i])
  {
    if n == 0 then 0 else PrefixValue(s, n - 1) * 10 + DigitValue(s[n - 1])
  }

  /** Digits appended after the first `n` do not change their value. */
  lemma {:induction false} PrefixValueAppend(p: string, q: string, n: nat)
    requires n <= |p| && forall i :: 0 <= i < n ==> IsDigit(p[i])
    ensures forall i :: 0 <= i < n ==> IsDigit((p + q)[i])
    ensures PrefixValue(p + q, n) == PrefixValue(p, n)
    decreases n
  {
    assert forall i :: 0 <= i < n ==> (p + q)[i] == p[i];
    if n > 0 {
      PrefixValueAppend(p, q, n - 1);
    }
  }

  /** Python's `int(text)` in base 10: surrounding whitespace, an optional sign, then digits. */
  function PyInt(s: string): Option<int>
  {
    var t := Strip(s);
    if |t| > 0 && (t[0] == '+' || t[0] == '-') then
      if IsDigits(t[1..]) then
        var v: int := DigitsValue(t[1..]);
        Some(if t[0] == '-' then -v else v)
      else None
    else if IsDigits(t) then Some(DigitsValue(t))
    else None
  }

  /** Python's `str(n)` for a natural number: decimal digits, no leading zeros. */
  function NatToString(n: nat): (r: string)
    ensures |r| > 0 && IsDigit(r[0]) && IsDigit(r[|r| - 1])
    ensures r[0] == '0' ==> n == 0
  {
    if n < 10 then [DigitChar(n)] else NatToString(n / 10) + [DigitChar(n % 10)]
  }

  /** Python's `str(i)` for any integer (a leading '-' for negatives). */
  function IntToString(i: int): (r: string)
    ensures r != [] && !IsSpace(r[0]) && !IsSpace(r[|r| - 1])
    ensures r[0] == '-' <==> i < 0
  {
    if i < 0 then "-" + NatToString(-i) else NatToString(i)
  }

  /** `str(i)` is made of decimal digits and, for a negative `i`, a leading minus sign. */
  lemma IntToStringChars(i: int)
    ensures forall k :: 0 <= k < |IntToString(i)| ==> IsDigit(IntToString(i)[k]) || IntToString(i)[k] == '-'
  {
    if i < 0 {
      NatToStringValue(-i);
    } else {
      NatToStringValue(i);
    }
  }

  /** `str(n)` is a run of digits that reads back as `n`. */
  lemma {:induction false} NatToStringValue(n: nat)
    ensures IsDigits(NatToString(n)) && DigitsValue(NatToString(n)) == n
  {
    if n >= 10 {
      var p := NatToString(n / 10);
      var d := DigitChar(n % 10);
      assert NatToString(n) == p + [d];
      NatToStringValue(n / 10);
      PrefixValueAppend(p, [d], |p|);
      assert DigitsValue(p + [d]) == PrefixValue(p + [d], |p|) * 10 + DigitValue(d);
    } else {
      assert PrefixValue(NatToString(n), 1) == PrefixValue(NatToString(n), 0) * 10 + n;
    }
  }

  /** `int()` ignores whitespace around the number. */
  lemma PyIntIgnoresPadding(s: string)
    ensures PyInt(s) == PyInt(Strip(s))
  {
    StripUnpadded(Strip(s));
  }

  /** Digits read as their value. */
  lemma PyIntOfDigits(w: string)
    requires IsDigits(w)
    ensures PyInt(w) == Some(DigitsValue(w))
  {
    assert !IsSpace(w[0]) && !IsSpace(w[|w| - 1]);
    StripUnpadded(w);
  }

  /** A sign before the digits: `-` negates their value, `+` keeps it. */
  lemma PyIntOfSignedDigits(sign: char, w: string)
    requires sign == '+' || sign == '-'
    requires IsDigits(w)
    ensures var v: int := DigitsValue(w); PyInt([sign] + w) == Some(if sign == '-' then -v else v)
  {
    var t := [sign] + w;
    assert t[|t| - 1] == w[|w| - 1];
    assert !IsSpace(t[0]) && !IsSpace(t[|t| - 1]);
    StripUnpadded(t);
    assert t[1..] == w;
  }

  /** Empty or all-whitespace text is not a number: `int()` raises. */
  lemma PyIntRejectsBlank(s: string)
    requires forall i :: 0 <= i < |s| ==> IsSpace(s[i])
    ensures PyInt(s) == None
  {
    StripDropsSurroundingSpace(s);
  }

  /** `int(str(i)) == i` for every integer. */
  lemma PyIntOfIntToString(i: int)
    ensures PyInt(IntToString(i)) == Some(i)
  {
    var s := IntToString(i);
    StripUnpadded(s);
    if i < 0 {
      NatToStringValue(-i);
      assert s[1..] == NatToString(-i);
    } else {
      NatToStringValue(i);
    }
  }
}
