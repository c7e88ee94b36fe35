/**
  The string operations the chunker and its index check rely on:
  whitespace trimming with Python's `str.strip()` semantics, forward
  substring search with `str.find(sub, start)` semantics, and the decimal
  rendering of a natural number used by the chunker's identity string.
*/
module Text {
  import opened Wrappers

  /** Python's `str.isspace()` for a single character. */
  predicate IsSpace(c: char) {
    if c <= ' ' then
      || c == ' '
      || ('\t' <= c <= '\r')               // tab, line feed, vertical tab, form feed, carriage return
      || ('\U{1C}' <= c <= '\U{1F}')       // file, group, record and unit separators
    else '\U{85}' <= c && UnicodeSpace(c)
  }

  /** The whitespace characters beyond ASCII. */
  predicate UnicodeSpace(c: char) {
    || c == '\U{85}' || c == '\U{A0}' || c == '\U{1680}'
    || ('\U{2000}' <= c <= '\U{200A}')
    || c == '\U{2028}' || c == '\U{2029}' || c == '\U{202F}' || c == '\U{205F}' || c == '\U{3000}'
  }

  predicate AllSpace(s: string) {
    forall k :: 0 <= k < |s| ==> IsSpace(s[k])
  }

  /** Every character of `s` in `[lo, hi)` is whitespace. */
  predicate SpacesBetween(s: string, lo: nat, hi: nat) {
    forall k :: lo <= k < hi && k < |s| ==> IsSpace(s[k])
  }

  /** Neither the first nor the last character is whitespace. */
  predicate IsStripped(s: string) {
    s == [] || (!IsSpace(s[0]) && !IsSpace(s[|s| - 1]))
  }

  /** The index of the first non-whitespace character at or after `i`, or `|s|`. */
  function SkipSpaces(s: string, i: nat): (n: nat)
    requires i <= |s|
    ensures i <= n <= |s|
    decreases |s| - i
  {
    if i < |s| && IsSpace(s[i]) then SkipSpaces(s, i + 1) else i
  }

  /** `SkipSpaces` passes only whitespace and stops at a non-whitespace character or the end. */
  lemma {:induction false} SkipSpacesSound(s: string, i: nat)
    requires i <= |s|
    ensures var n := SkipSpaces(s, i);
            SpacesBetween(s, i, n) && (n < |s| ==> !IsSpace(s[n]))
    decreases |s| - i
  {
    if i < |s| && IsSpace(s[i]) {
      SkipSpacesSound(s, i + 1);
    }
  }

  /** One past the last non-whitespace character in `[lo, j)`, or `lo`. */
  function SkipSpacesBack(s: string, lo: nat, j: nat): (n: nat)
    requires lo <= j <= |s|
    ensures lo <= n <= j
    decreases j
  {
    if lo < j && IsSpace(s[j - 1]) then SkipSpacesBack(s, lo, j - 1) else j
  }

  /** `SkipSpacesBack` passes only whitespace and stops after a non-whitespace character or at `lo`. */
  lemma {:induction false} SkipSpacesBackSound(s: string, lo: nat, j: nat)
    requires lo <= j <= |s|
    ensures var n := SkipSpacesBack(s, lo, j);
            SpacesBetween(s, n, j) && (lo < n ==> !IsSpace(s[n - 1]))
    decreases j
  {
    if lo < j && IsSpace(s[j - 1]) {
      SkipSpacesBackSound(s, lo, j - 1);
    }
  }

  /** The part of `s` that `s.strip()` keeps, as a half-open index range. */
  function StripSpan(s: string): (span: (nat, nat))
    ensures span.0 <= span.1 <= |s|
  {
    var i := SkipSpaces(s, 0);
    (i, SkipSpacesBack(s, i, |s|))
  }

  /**
    Only whitespace lies outside the span `Strip` keeps, and the span
    neither starts nor ends with whitespace.
  */
  lemma StripSpanSound(s: string)
    ensures var span := StripSpan(s);
            && SpacesBetween(s, 0, span.0) && SpacesBetween(s, span.1, |s|)
            && (span.0 < |s| ==> !IsSpace(s[span.0]))
            && (span.0 < span.1 ==> !IsSpace(s[span.0]) && !IsSpace(s[span.1 - 1]))
  {
    var i := SkipSpaces(s, 0);
    SkipSpacesSound(s, 0);
    SkipSpacesBackSound(s, i, |s|);
  }

  /** `s.strip()`: `s` without the whitespace at either end. */
  function Strip(s: string): (r: string)
    ensures |r| <= |s|
  {
    var span := StripSpan(s);
    s[span.0..span.1]
  }

  /** The result of `Strip` neither starts nor ends with whitespace. */
  lemma StripIsStripped(s: string)
    ensures IsStripped(Strip(s))
  {
    StripSpanSound(s);
  }

  /**
    `Strip` is determined by its characterisation: whenever the only
    characters of `s` outside `[i, j)` are whitespace and `s[i..j]` neither
    starts nor ends with whitespace, `Strip(s)` is `s[i..j]`.
  */
  lemma StripUnique(s: string, i: nat, j: nat)
    requires i <= j <= |s|
    requires SpacesBetween(s, 0, i) && SpacesBetween(s, j, |s|)
    requires i < j ==> !IsSpace(s[i]) && !IsSpace(s[j - 1])
    ensures Strip(s) == s[i..j]
  {
    var span := StripSpan(s);
    StripSpanSound(s);
    if i < j {
      assert span.0 == i;
      assert span.1 == j;
    } else {
      assert span.0 == |s|;
    }
  }

  /** Stripping twice is stripping once. */
  lemma StripIdempotent(s: string)
    ensures Strip(Strip(s)) == Strip(s)
  {
    StripIsStripped(s);
    StrippedIsFixed(Strip(s));
  }

  /** What `Strip` keeps occurs in the string where its span starts. */
  lemma StripOccurs(s: string)
    ensures OccursAt(s, Strip(s), StripSpan(s).0)
  {
  }

  /** A string with no whitespace at either end is its own `Strip`. */
  lemma StrippedIsFixed(s: string)
    requires IsStripped(s)
    ensures Strip(s) == s
  {
    StripUnique(s, 0, |s|);
    assert s[0..|s|] == s;
  }

  /**
    Whitespace that a decoder adds around a text (a leading space marker, a
    trailing newline) does not change what `Strip` keeps.
  */
  lemma StripIgnoresPadding(a: string, x: string, b: string)
    requires AllSpace(a) && AllSpace(b)
    ensures Strip(a + x + b) == Strip(x)
  {
    var s := a + x + b;
    var span := StripSpan(x);
    StripSpanSound(x);
    var i, j := |a| + span.0, |a| + span.1;
    assert forall k :: |a| <= k < |a| + |x| ==> s[k] == x[k - |a|];
    assert forall k :: |a| + |x| <= k < |s| ==> s[k] == b[k - |a| - |x|];
    assert SpacesBetween(s, 0, i) by {
      forall k | 0 <= k < i ensures IsSpace(s[k]) {
        if k < |a| { assert s[k] == a[k]; }
      }
    }
    assert SpacesBetween(s, j, |s|);
    StripUnique(s, i, j);
    assert s[i..j] == x[span.0..span.1];
  }

  /** `needle` occurs in `text` starting at index `k`. */
  predicate OccursAt(text: string, needle: string, k: nat) {
    k + |needle| <= |text| && text[k..k + |needle|] == needle
  }

  /**
    `text.find(needle, from)`: the lowest index at or after `from` where
    `needle` occurs, or nothing (Python's -1) when there is none. As in
    Python, a start past the end of `text` finds nothing, not even "".
  */
  function Find(text: string, needle: string, from: nat): (r: Option<nat>)
    decreases |text| - from
  {
    if from + |needle| > |text| then None
    else if text[from..from + |needle|] == needle then Some(from)
    else Find(text, needle, from + 1)
  }

  /**
    `Find` returns the first occurrence at or after `from`, and nothing
    exactly when there is no occurrence there.
  */
  lemma {:induction false} FindSound(text: string, needle: string, from: nat)
    ensures var r := Find(text, needle, from);
            && (r.Some? ==> from <= r.value && OccursAt(text, needle, r.value))
            && (r.Some? ==> forall j :: from <= j < r.value ==> !OccursAt(text, needle, j))
            && (r.None? ==> forall j: nat :: from <= j ==> !OccursAt(text, needle, j))
    decreases |text| - from
  {
    if from + |needle| <= |text| && text[from..from + |needle|] != needle {
      FindSound(text, needle, from + 1);
    }
  }

  predicate IsDigit(c: char) {
    '0' <= c <= '9'
  }

  predicate AllDigits(s: string) {
    forall k :: 0 <= k < |s| ==> IsDigit(s[k])
  }

  function DigitChar(d: nat): (c: char)
    requires d < 10
    ensures IsDigit(c) && c as int - '0' as int == d
  {
    ('0' as int + d) as char
  }

  /** Python's `str(n)` for a non-negative integer: its decimal digits. */
  function DecimalString(n: nat): (r: string)
    ensures |r| > 0 && AllDigits(r)
    decreases n
  {
    if n < 10 then [DigitChar(n)] else DecimalString(n / 10) + [DigitChar(n % 10)]
  }

  /** The number a string of decimal digits denotes. */
  function DecimalValue(s: string): nat
    requires AllDigits(s)
  {
    if s == [] then 0 else DecimalValue(s[..|s| - 1]) * 10 + (s[|s| - 1] as int - '0' as int)
  }

  /** Reading back the decimal rendering of `n` gives `n`. */
  lemma {:induction false} DecimalRoundTrip(n: nat)
    ensures DecimalValue(DecimalString(n)) == n
    decreases n
  {
    if n >= 10 {
      var s := DecimalString(n);
      assert s[..|s| - 1] == DecimalString(n / 10);
      DecimalRoundTrip(n / 10);
    }
  }

  /** Different numbers have different decimal renderings. */
  lemma DecimalInjective(m: nat, n: nat)
    requires DecimalString(m) == DecimalString(n)
    ensures m == n
  {
    DecimalRoundTrip(m);
    DecimalRoundTrip(n);
  }

  /**
    A run of digits followed by a non-digit is read unambiguously: if two
    such strings are equal, so are their digit runs.
  */
  lemma DigitRunUnique(x: string, u: string, y: string, v: string)
    requires AllDigits(x) && AllDigits(y)
    requires u != [] && !IsDigit(u[0]) && v != [] && !IsDigit(v[0])
    requires x + u == y + v
    ensures x == y && u == v
  {
    var w := x + u;
    assert !IsDigit(w[|x|]) && forall k :: 0 <= k < |x| ==> IsDigit(w[k]);
    assert !IsDigit(w[|y|]) && forall k :: 0 <= k < |y| ==> IsDigit(w[k]);
    assert |x| == |y|;
    assert x == w[..|x|] && y == w[..|y|];
    assert u == w[|x|..] && v == w[|y|..];
  }
}
