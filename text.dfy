/**
 * The string primitives the help desk relies on: `str.strip()`,
 * `str.lower()`, substring search (the `ilike '%term%'` test), the decimal
 * rendering of an integer inside an f-string, and Python's `int(str)`.
 */
module Text {
  import opened Wrappers
  import opened Seqs

  /** The characters for which Python's `str.isspace()` is true. */
  predicate IsSpace(c: char) {
    || c == ' '
    || ('\U{9}' <= c <= '\U{d}')
    || ('\U{1c}' <= c <= '\U{1f}')
    || c == '\U{85}' || c == '\U{a0}' || c == '\U{1680}'
    || ('\U{2000}' <= c <= '\U{200a}')
    || c == '\U{2028}' || c == '\U{2029}' || c == '\U{202f}' || c == '\U{205f}'
    || c == '\U{3000}'
  }

  /**
   * The characters `int()` skips around a number: the ASCII whitespace
   * ' ', '\t', '\n', '\v', '\f', '\r', and every non-ASCII character for which
   * `isspace()` holds (`int()` first turns those into ' '). The ASCII
   * separators U+001C to U+001F, whitespace to `str.strip()`, are not skipped.
   */
  predicate IsIntSpace(c: char) {
    IsSpace(c) && !('\U{1c}' <= c <= '\U{1f}')
  }

  predicate AllSpace(s: string) {
    forall i :: 0 <= i < |s| ==> IsSpace(s[i])
  }

  /** `lstrip`-like: drops the leading characters of class `space`. */
  function TrimStart(s: string, space: char -> bool): (r: string)
    ensures |r| <= |s| && r == s[|s| - |r|..]
    ensures r == [] || !space(r[0])
  {
    if s != [] && space(s[0]) then TrimStart(s[1..], space) else s
  }

  /** `rstrip`-like: drops the trailing characters of class `space`. */
  function TrimEnd(s: string, space: char -> bool): (r: string)
    ensures |r| <= |s| && r == s[..|r|]
    ensures r == [] || !space(r[|r| - 1])
  {
    if s != [] && space(s[|s| - 1]) then TrimEnd(s[..|s| - 1], space) else s
  }

  /** What `TrimStart` removes is of class `space`. */
  lemma {:induction false} TrimStartCutsSpace(s: string, space: char -> bool)
    ensures forall i :: 0 <= i < |s| - |TrimStart(s, space)| ==> space(s[i])
  {
    if s != [] && space(s[0]) {
      TrimStartCutsSpace(s[1..], space);
      assert forall i :: 1 <= i < |s| ==> s[i] == s[1..][i - 1];
    }
  }

  /** What `TrimEnd` removes is of class `space`. */
  lemma {:induction false} TrimEndCutsSpace(s: string, space: char -> bool)
    ensures forall i :: |TrimEnd(s, space)| <= i < |s| ==> space(s[i])
  {
    if s != [] && space(s[|s| - 1]) {
      var p := s[..|s| - 1];
      TrimEndCutsSpace(p, space);
      assert forall i :: 0 <= i < |p| ==> p[i] == s[i];
    }
  }

  /**
   * `str.strip()`: a slice of `s` that neither starts nor ends with
   * whitespace (what is cut away is whitespace, by `StripCutsSpace`).
   */
  function Strip(s: string): (r: string)
    ensures |r| <= |s|
    ensures r == [] || (!IsSpace(r[0]) && !IsSpace(r[|r| - 1]))
  {
    TrimEnd(TrimStart(s, IsSpace), IsSpace)
  }

  /** `r` is `s` with some whitespace cut from its start and some from its end. */
  ghost predicate CutFromPadding(s: string, r: string) {
    exists i :: 0 <= i <= |s| - |r| && s[i..i + |r|] == r && AllSpace(s[..i]) && AllSpace(s[i + |r|..])
  }

  /** `strip` removes whitespace only, from both ends, and keeps the middle as it is. */
  lemma StripCutsSpace(s: string)
    ensures CutFromPadding(s, Strip(s))
  {
    var a := TrimStart(s, IsSpace);
    var r := TrimEnd(a, IsSpace);
    var i := |s| - |a|;
    TrimStartCutsSpace(s, IsSpace);
    TrimEndCutsSpace(a, IsSpace);
    assert s[i..i + |r|] == r;
    assert s[i + |r|..] == a[|r|..];
    assert AllSpace(s[..i]);
    assert AllSpace(s[i + |r|..]);
  }

  /** Stripping a string that carries no outer whitespace leaves it alone. */
  lemma StripUnpadded(s: string)
    requires s == [] || (!IsSpace(s[0]) && !IsSpace(s[|s| - 1]))
    ensures Strip(s) == s
  {
    assert TrimStart(s, IsSpace) == s;
  }

  /** A string of whitespace strips to nothing. */
  lemma {:induction false} BlankStripsToEmpty(s: string)
    requires AllSpace(s)
    ensures Strip(s) == []
  {
    if s != [] {
      assert AllSpace(s[1..]);
      BlankStripsToEmpty(s[1..]);
    }
  }

  /** `strip` is idempotent: a stripped field stays the same when stripped again. */
  lemma StripIdempotent(s: string)
    ensures Strip(Strip(s)) == Strip(s)
  {
    StripUnpadded(Strip(s));
  }

  /** ASCII case mapping of one character, as `str.lower()` does for A-Z. */
  function LowerChar(c: char): char {
    if 'A' <= c <= 'Z' then (c as int + 32) as char else c
  }

  function Lower(s: string): (r: string)
    ensures |r| == |s|
    ensures forall i :: 0 <= i < |s| ==> r[i] == LowerChar(s[i])
  {
    if s == [] then [] else [LowerChar(s[0])] + Lower(s[1..])
  }

  /** Lower-casing twice is lower-casing once, and leaves no upper-case letter. */
  lemma LowerIdempotent(s: string)
    ensures Lower(Lower(s)) == Lower(s)
    ensures forall i :: 0 <= i < |s| ==> !('A' <= Lower(s)[i] <= 'Z')
  {
    assert forall i :: 0 <= i < |s| ==> Lower(Lower(s))[i] == Lower(s)[i];
  }

  /** Lower-casing changes letters only, so it neither adds nor removes outer whitespace. */
  lemma LowerUnpadded(s: string)
    requires s == [] || (!IsSpace(s[0]) && !IsSpace(s[|s| - 1]))
    ensures var r := Lower(s); r == [] || (!IsSpace(r[0]) && !IsSpace(r[|r| - 1]))
  {
    if s != [] {
      var r := Lower(s);
      assert r[0] == LowerChar(s[0]) && r[|r| - 1] == LowerChar(s[|s| - 1]);
      LowerCharKeepsSpace(s[0]);
      LowerCharKeepsSpace(s[|s| - 1]);
    }
  }

  lemma LowerCharKeepsSpace(c: char)
    ensures IsSpace(LowerChar(c)) == IsSpace(c)
  {
  }

  /** `needle` occurs in `hay` starting at index `i`. */
  predicate OccursAt(hay: string, needle: string, i: int) {
    0 <= i && i + |needle| <= |hay| && hay[i..i + |needle|] == needle
  }

  /** Substring search, as `needle in hay`. */
  function Contains(hay: string, needle: string): (r: bool)
    ensures r <==> exists i :: OccursAt(hay, needle, i)
    decreases |hay|
  {
    if |needle| > |hay| then
      false
    else if hay[..|needle|] == needle then
      assert OccursAt(hay, needle, 0);
      true
    else
      var r := Contains(hay[1..], needle);
      assert r ==> var i :| OccursAt(hay[1..], needle, i); OccursAt(hay, needle, i + 1);
      assert !r ==> forall i :: OccursAt(hay, needle, i) ==> i > 0 && OccursAt(hay[1..], needle, i - 1);
      r
  }

  /** The empty term occurs everywhere; a term longer than the text nowhere. */
  lemma ContainsBounds(hay: string, needle: string)
    ensures needle == [] ==> Contains(hay, needle)
    ensures |needle| > |hay| ==> !Contains(hay, needle)
  {
    if needle == [] { assert OccursAt(hay, needle, 0); }
  }

  /** Case-insensitive substring test, the meaning given to `ilike '%term%'`. */
  predicate ContainsIgnoringCase(hay: string, needle: string) {
    Contains(Lower(hay), Lower(needle))
  }

  // ---------------------------------------------------------------------
  // Decimal digits

  predicate IsDigit(c: char) {
    '0' <= c <= '9'
  }

  function DigitChar(d: nat): (c: char)
    requires d < 10
    ensures IsDigit(c) && c as int - '0' as int == d
  {
    (d + '0' as int) as char
  }

  function DigitValue(c: char): nat
    requires IsDigit(c)
  {
    c as int - '0' as int
  }

  /** The value of a string of decimal digits, most significant first. */
  function DigitsValue(s: string): nat
    requires forall i :: 0 <= i < |s| ==> IsDigit(s[i])
  {
    if s == [] then 0 else DigitsValue(s[..|s| - 1]) * 10 + DigitValue(s[|s| - 1])
  }

  /**
   * The decimal rendering of a non-negative integer, as `f"{n}"` or
   * `str(n)` produce it: digits only, and no leading zero unless n is 0.
   */
  function NatToString(n: nat): (r: string)
    ensures |r| >= 1
    ensures forall i :: 0 <= i < |r| ==> IsDigit(r[i])
    ensures r[0] == '0' <==> n == 0
  {
    if n < 10 then [DigitChar(n)] else NatToString(n / 10) + [DigitChar(n % 10)]
  }

  /** Reading the digits back gives the number: `int(str(n)) == n`. */
  lemma {:induction false} NatToStringValue(n: nat)
    ensures DigitsValue(NatToString(n)) == n
  {
    var r := NatToString(n);
    if n >= 10 {
      NatToStringValue(n / 10);
      assert r[..|r| - 1] == NatToString(n / 10);
    }
  }

  /** Distinct numbers render differently. */
  lemma NatToStringInjective(a: nat, b: nat)
    requires NatToString(a) == NatToString(b)
    ensures a == b
  {
    NatToStringValue(a);
    NatToStringValue(b);
  }

  /** `str(n)` for any integer: a minus sign in front of a negative one. */
  function IntToString(n: int): (r: string)
    ensures |r| >= 1
  {
    if n < 0 then "-" + NatToString(-n) else NatToString(n)
  }

  // ---------------------------------------------------------------------
  // Python's int(str)

  /**
   * A literal `int()` accepts in base 10: one or more ASCII digits, with
   * single underscores allowed between two digits.
   */
  predicate DigitGroups(s: string) {
    && |s| >= 1
    && IsDigit(s[0])
    && IsDigit(s[|s| - 1])
    && (forall i :: 0 <= i < |s| ==> IsDigit(s[i]) || s[i] == '_')
    && (forall i :: 0 <= i < |s| - 1 ==> IsDigit(s[i]) || IsDigit(s[i + 1]))
  }

  predicate NotUnderscore(c: char) {
    c != '_'
  }

  /** `s` without its underscores, the other characters kept in order. */
  function DropUnderscores(s: string): (r: string)
    ensures forall c :: c in r <==> c in s && c != '_'
    ensures (forall i :: 0 <= i < |s| ==> IsDigit(s[i]) || s[i] == '_') ==>
              forall i :: 0 <= i < |r| ==> IsDigit(r[i])
  {
    var r := Filter(s, NotUnderscore);
    assert forall i :: 0 <= i < |r| ==> r[i] in s && r[i] != '_';
    r
  }

  /** Digits alone have no underscore to drop. */
  lemma {:induction false} DropUnderscoresOfDigits(s: string)
    requires forall i :: 0 <= i < |s| ==> IsDigit(s[i])
    ensures DropUnderscores(s) == s
  {
    FilterKeepsAll(s, NotUnderscore);
  }

  /** The digit-group part of `int(s)`, or `None` when it is not one. */
  function ParseMagnitude(body: string): (r: Option<nat>)
    ensures r.Some? <==> DigitGroups(body)
  {
    if DigitGroups(body) then
      Some(DigitsValue(DropUnderscores(body)))
    else None
  }

  /** Digits alone always form valid digit groups worth their decimal value. */
  lemma ParseMagnitudeOfNat(n: nat)
    ensures ParseMagnitude(NatToString(n)) == Some(n)
  {
    DropUnderscoresOfDigits(NatToString(n));
    NatToStringValue(n);
  }

  /** The text is an optional sign followed by digit groups. */
  predicate SignedLiteral(t: string) {
    t != [] && (if t[0] == '-' || t[0] == '+' then DigitGroups(t[1..]) else DigitGroups(t))
  }

  /** An optional sign followed by digit groups, as `int()` reads it once stripped. */
  function ParseSigned(t: string): (r: Option<int>)
    ensures r.Some? <==> SignedLiteral(t)
    ensures r.Some? && t[0] == '-' ==> r.value <= 0
    ensures r.Some? && t[0] != '-' ==> r.value >= 0
  {
    if t == [] then None
    else if t[0] == '-' then
      match ParseMagnitude(t[1..])
      case None => None
      case Some(m) => Some(0 - m)
    else if t[0] == '+' then
      match ParseMagnitude(t[1..])
      case None => None
      case Some(m) => Some(m)
    else
      match ParseMagnitude(t)
      case None => None
      case Some(m) => Some(m)
  }

  /** The whitespace `int()` skips around its literal, cut from both ends. */
  function IntStrip(s: string): (r: string)
    ensures |r| <= |s|
    ensures r == [] || (!IsIntSpace(r[0]) && !IsIntSpace(r[|r| - 1]))
  {
    TrimEnd(TrimStart(s, IsIntSpace), IsIntSpace)
  }

  /** A string with no such whitespace at its ends is left alone. */
  lemma IntStripUnpadded(s: string)
    requires s == [] || (!IsIntSpace(s[0]) && !IsIntSpace(s[|s| - 1]))
    ensures IntStrip(s) == s
  {
    assert TrimStart(s, IsIntSpace) == s;
  }

  /**
   * `int(s)`: the whitespace of `IsIntSpace` around the literal is ignored,
   * then an optional sign and digit groups; anything else raises
   * `ValueError`, modelled as `None`.
   */
  function ParseInt(s: string): (r: Option<int>)
    ensures r.Some? <==> SignedLiteral(IntStrip(s))
  {
    ParseSigned(IntStrip(s))
  }

  /** The padding `int()` skips never changes what it reads. */
  lemma ParseIntIgnoresPadding(s: string)
    ensures ParseInt(IntStrip(s)) == ParseInt(s)
  {
    IntStripUnpadded(IntStrip(s));
  }

  /** U+001C is not whitespace to `int()`, so it is not cut. */
  lemma IntStripFileSeparator()
    ensures IntStrip("\U{1c}5") == "\U{1c}5"
  {
    IntStripUnpadded("\U{1c}5");
  }

  /**
   * U+001C in front is refused by `int()`, although it is whitespace to
   * `str.isspace()` and so to `str.strip()`.
   */
  lemma ParseIntFileSeparator()
    ensures ParseInt("\U{1c}5") == None
    ensures IsSpace("\U{1c}5"[0])
  {
    IntStripFileSeparator();
    assert !IsDigit("\U{1c}5"[0]);
  }

  /** A minus sign and the digits of `m` read back as `-m`. */
  lemma ParseSignedNegative(m: nat)
    ensures ParseSigned("-" + NatToString(m)) == Some(0 - m)
  {
    var d := NatToString(m);
    var t := "-" + d;
    assert t != [] && t[0] == '-' && t[1..] == d;
    ParseMagnitudeOfNat(m);
  }

  /** The digits of `m` alone read back as `m`. */
  lemma ParseSignedUnsigned(m: nat)
    ensures ParseSigned(NatToString(m)) == Some(m)
  {
    var d := NatToString(m);
    assert IsDigit(d[0]);
    ParseMagnitudeOfNat(m);
  }

  /** The sign and digits `str(n)` writes are read back as `n`. */
  lemma ParseSignedRoundTrip(n: int)
    ensures ParseSigned(IntToString(n)) == Some(n)
  {
    if n < 0 {
      ParseSignedNegative(-n);
    } else {
      ParseSignedUnsigned(n);
    }
  }

  /** `int(str(n)) == n` for every integer. */
  lemma ParseIntRoundTrip(n: int)
    ensures ParseInt(IntToString(n)) == Some(n)
  {
    var s := IntToString(n);
    var d := NatToString(if n < 0 then -n else n);
    assert IsDigit(d[0]) && IsDigit(d[|d| - 1]);
    assert s[|s| - 1] == d[|d| - 1];
    IntStripUnpadded(s);
    ParseSignedRoundTrip(n);
  }
}
