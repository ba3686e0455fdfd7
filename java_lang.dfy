/**
 * The few pieces of the Java standard library whose behaviour the fetcher depends on, written
 * out concretely: the 32-bit `int` range, `Integer.parseInt`, decimal formatting with `%d`,
 * `String.trim` and `String.equalsIgnoreCase`. Characters are restricted to ASCII where the
 * Java method consults Unicode tables (digits and case mappings).
 */
module JavaLang {
  import opened Wrappers

  /** An unsigned octet; the model's stand-in for a Java `byte` in a `byte[]` body. */
  type Byte = b: int | 0 <= b < 256

  const IntMin: int := -0x8000_0000
  const IntMax: int := 0x7fff_ffff

  /** The value range of a Java `int`. */
  predicate IsInt32(n: int) {
    IntMin <= n <= IntMax
  }

  // ---------------------------------------------------------------------------
  // Decimal digits

  predicate IsDigit(c: char) {
    '0' <= c <= '9'
  }

  predicate AllDigits(s: string) {
    forall i :: 0 <= i < |s| ==> IsDigit(s[i])
  }

  function DigitValue(c: char): (d: nat)
    requires IsDigit(c)
    ensures d < 10
  {
    (c as int) - ('0' as int)
  }

  function DigitChar(d: nat): (c: char)
    requires d < 10
    ensures IsDigit(c) && DigitValue(c) == d
  {
    (('0' as int) + d) as char
  }

  /** The number a run of decimal digits denotes, read most significant digit first (0 for no digits). */
  function DecimalValue(ds: string): nat
    requires AllDigits(ds)
    decreases |ds|
  {
    if ds == [] then 0 else 10 * DecimalValue(ds[..|ds| - 1]) + DigitValue(ds[|ds| - 1])
  }

  /**
   * `Integer.parseInt(s)`: an optional '-' or '+' sign followed by at least one digit, whose
   * value must fit a Java `int`; anything else raises `NumberFormatException` (here `None`).
   */
  function ParseInt(s: string): (r: Option<int>)
    ensures r.Some? ==> IsInt32(r.value)
  {
    if |s| == 0 then None
    else
      var signed := s[0] == '-' || s[0] == '+';
      var digits := if signed then s[1..] else s;
      if |digits| == 0 || !AllDigits(digits) then None
      else
        var magnitude: int := DecimalValue(digits);
        var v: int := if s[0] == '-' then -magnitude else magnitude;
        if IsInt32(v) then Some(v) else None
  }

  /** The decimal digits of `n`, without leading zeroes. */
  function NatToDigits(n: nat): (ds: string)
    ensures |ds| > 0 && AllDigits(ds)
    ensures |ds| > 1 ==> ds[0] != '0'
  {
    if n < 10 then [DigitChar(n)] else NatToDigits(n / 10) + [DigitChar(n % 10)]
  }

  /** `String.format("%d", n)`: a '-' for negative numbers, then the digits of the magnitude. */
  function FormatInt(n: int): (s: string)
    ensures |s| > 0 && (s[0] == '-' <==> n < 0)
    ensures var ds := if n < 0 then s[1..] else s;
            |ds| > 0 && AllDigits(ds) && (|ds| > 1 ==> ds[0] != '0')
  {
    if n < 0 then "-" + NatToDigits(-n) else NatToDigits(n)
  }

  lemma {:induction false} DecimalValueOfDigits(n: nat)
    ensures DecimalValue(NatToDigits(n)) == n
  {
    if n >= 10 {
      var ds := NatToDigits(n);
      assert ds[..|ds| - 1] == NatToDigits(n / 10);
      DecimalValueOfDigits(n / 10);
    }
  }

  /** Formatting an `int` with `%d` and parsing it back with `Integer.parseInt` gives the number back. */
  lemma ParseFormattedInt(n: int)
    requires IsInt32(n)
    ensures ParseInt(FormatInt(n)) == Some(n)
  {
    var ds := NatToDigits(if n < 0 then -n else n);
    DecimalValueOfDigits(if n < 0 then -n else n);
    if n < 0 {
      ParseNegative("-" + ds, ds);
    } else {
      ParseUnsigned(ds);
    }
  }

  /** A '-' and digits parse to the negated value when that fits an `int`. */
  lemma ParseNegative(s: string, ds: string)
    requires s == "-" + ds && |ds| > 0 && AllDigits(ds) && IsInt32(0 - DecimalValue(ds))
    ensures ParseInt(s) == Some(0 - DecimalValue(ds))
  {
    assert s[0] == '-' && s[1..] == ds;
  }

  /** Digits that do not start with a sign parse to their value when it fits an `int`. */
  lemma ParseUnsigned(ds: string)
    requires |ds| > 0 && AllDigits(ds) && IsInt32(DecimalValue(ds))
    ensures ParseInt(ds) == Some(DecimalValue(ds))
  {
    assert IsDigit(ds[0]);
  }

  lemma {:induction false} DecimalValueLeadingZero(ds: string)
    requires AllDigits(ds)
    ensures AllDigits("0" + ds) && DecimalValue("0" + ds) == DecimalValue(ds)
    decreases |ds|
  {
    var zs := "0" + ds;
    assert AllDigits(zs) by {
      forall i | 0 <= i < |zs| ensures IsDigit(zs[i]) {
        if i > 0 { assert zs[i] == ds[i - 1]; }
      }
    }
    if ds != [] {
      assert zs[..|zs| - 1] == "0" + ds[..|ds| - 1];
      DecimalValueLeadingZero(ds[..|ds| - 1]);
    }
  }

  /**
   * `Integer.parseInt` compares numbers, not spellings: a leading zero does not change the value,
   * so "07" and "7" are the same serial.
   */
  lemma ParseIntLeadingZero(ds: string)
    requires |ds| > 0 && AllDigits(ds)
    ensures ParseInt("0" + ds) == ParseInt(ds)
  {
    DecimalValueLeadingZero(ds);
  }

  /** Appending a digit multiplies the value by ten and adds the digit. */
  lemma DecimalValueSnoc(ds: string, c: char)
    requires AllDigits(ds) && IsDigit(c)
    ensures AllDigits(ds + [c]) && DecimalValue(ds + [c]) == 10 * DecimalValue(ds) + DigitValue(c)
  {
    assert (ds + [c])[..|ds|] == ds;
  }

  /** The digits of 2^31, one past the largest `int`. */
  lemma DecimalValueOfIntOverflow()
    ensures AllDigits("2147483648") && DecimalValue("2147483648") == -IntMin
  {
    var ds: string := "2";
    DecimalValueSnoc(ds, '1'); ds := ds + ['1'];
    DecimalValueSnoc(ds, '4'); ds := ds + ['4'];
    DecimalValueSnoc(ds, '7'); ds := ds + ['7'];
    DecimalValueSnoc(ds, '4'); ds := ds + ['4'];
    DecimalValueSnoc(ds, '8'); ds := ds + ['8'];
    DecimalValueSnoc(ds, '3'); ds := ds + ['3'];
    DecimalValueSnoc(ds, '6'); ds := ds + ['6'];
    DecimalValueSnoc(ds, '4'); ds := ds + ['4'];
    DecimalValueSnoc(ds, '8'); ds := ds + ['8'];
    assert DecimalValue(ds) == 2147483648;
    assert ds == "2147483648";
  }

  /** The first number past the `int` range is rejected rather than wrapped around. */
  lemma ParseIntRejectsOverflow()
    ensures ParseInt("2147483648") == None
    ensures ParseInt("-2147483648") == Some(IntMin)
  {
    DecimalValueOfIntOverflow();
    assert "-2147483648"[1..] == "2147483648";
  }

  /**
   * `Integer.parseInt` never wraps around: a number it returns has exactly the magnitude of the digits
   * read, with the sign written, so digits out of the `int` range are rejected for every input.
   */
  lemma ParseIntKeepsMagnitude(s: string)
    requires ParseInt(s).Some?
    ensures |s| > 0
    ensures var digits := if s[0] == '-' || s[0] == '+' then s[1..] else s;
            var v := ParseInt(s).value;
            |digits| > 0 && AllDigits(digits)
            && (if s[0] == '-' then v <= 0 && -v == DecimalValue(digits) else v == DecimalValue(digits))
  {
  }

  // ---------------------------------------------------------------------------
  // String.trim

  /** `String.trim` strips every character whose code is at most U+0020 (space and the C0 controls). */
  predicate IsTrimmed(c: char) {
    c <= ' '
  }

  /** White space in the sense of XML (space, tab, carriage return, line feed). */
  predicate IsXmlSpace(c: char) {
    c == ' ' || c == '\t' || c == '\r' || c == '\n'
  }

  /** The first index at or after `i` whose character `trim` keeps, or `|s|` when there is none. */
  function KeptFrom(s: string, i: nat): (st: nat)
    requires i <= |s|
    ensures i <= st <= |s|
    ensures forall k :: i <= k < st ==> IsTrimmed(s[k])
    ensures st < |s| ==> !IsTrimmed(s[st])
    decreases |s| - i
  {
    if i < |s| && IsTrimmed(s[i]) then KeptFrom(s, i + 1) else i
  }

  /** Scanning back from `len` towards `st`: one past the last character `trim` keeps, or `st`. */
  function KeptUntil(s: string, st: nat, len: nat): (end: nat)
    requires st <= len <= |s|
    ensures st <= end <= len
    ensures forall k :: end <= k < len ==> IsTrimmed(s[k])
    ensures st < end ==> !IsTrimmed(s[end - 1])
    decreases len
  {
    if st < len && IsTrimmed(s[len - 1]) then KeptUntil(s, st, len - 1) else len
  }

  /** The scan from the front stops at the first kept character and nowhere else. */
  lemma KeptFromUnique(s: string, i: nat, j: nat)
    requires i <= j <= |s|
    requires forall k :: i <= k < j ==> IsTrimmed(s[k])
    requires j < |s| ==> !IsTrimmed(s[j])
    ensures KeptFrom(s, i) == j
  {
  }

  /** The scan from the back stops after the last kept character and nowhere else. */
  lemma KeptUntilUnique(s: string, st: nat, len: nat, j: nat)
    requires st <= j <= len <= |s|
    requires forall k :: j <= k < len ==> IsTrimmed(s[k])
    requires st < j ==> !IsTrimmed(s[j - 1])
    ensures KeptUntil(s, st, len) == j
  {
  }

  /**
   * `t` is what is left of `s` once the first `i` characters and everything after `t` are cut off,
   * and all that was cut off are trimmed characters.
   */
  ghost predicate TrimmedFrom(s: string, i: nat, t: string) {
    i + |t| <= |s| && t == s[i..i + |t|]
    && (forall k :: 0 <= k < i ==> IsTrimmed(s[k]))
    && (forall k :: i + |t| <= k < |s| ==> IsTrimmed(s[k]))
  }

  /**
   * `String.trim`: advances a start index over trimmed characters, then moves an end index back
   * over trimmed characters, and returns the characters in between.
   */
  function Trim(s: string): (t: string)
    ensures t != [] ==> !IsTrimmed(t[0]) && !IsTrimmed(t[|t| - 1])
  {
    var st := KeptFrom(s, 0);
    var end := KeptUntil(s, st, |s|);
    s[st..end]
  }

  /** What `trim` keeps is an infix of `s`, and all it cuts off on either side are trimmed characters. */
  lemma TrimKeepsInfix(s: string)
    ensures exists i: nat :: TrimmedFrom(s, i, Trim(s))
  {
    var st := KeptFrom(s, 0);
    var end := KeptUntil(s, st, |s|);
    assert Trim(s) == s[st..end];
    assert TrimmedFrom(s, st, Trim(s));
  }

  /**
   * Surrounding XML white space, as the base64Binary datatype of XML Schema Part 2 allows
   * around its lexical form, is removed by `trim` and nothing of the content is.
   */
  lemma TrimSurroundingSpace(lead: string, body: string, trail: string)
    requires forall k :: 0 <= k < |lead| ==> IsXmlSpace(lead[k])
    requires forall k :: 0 <= k < |trail| ==> IsXmlSpace(trail[k])
    requires body != [] ==> !IsTrimmed(body[0]) && !IsTrimmed(body[|body| - 1])
    ensures Trim(lead + body + trail) == body
  {
    var s := lead + body + trail;
    var a, b := |lead|, |lead| + |body|;
    forall k | 0 <= k < a ensures IsTrimmed(s[k]) {
      assert s[k] == lead[k];
    }
    forall k | b <= k < |s| ensures IsTrimmed(s[k]) {
      assert s[k] == trail[k - b];
    }
    assert s[a..b] == body;
    if body == [] {
      KeptFromUnique(s, 0, |s|);
      KeptUntilUnique(s, |s|, |s|, |s|);
    } else {
      assert s[a] == body[0] && s[b - 1] == body[|body| - 1];
      KeptFromUnique(s, 0, a);
      KeptUntilUnique(s, a, |s|, b);
    }
  }

  /** Trimming twice is trimming once. */
  lemma TrimIdempotent(s: string)
    ensures Trim(Trim(s)) == Trim(s)
  {
    TrimIdempotentCore(Trim(s));
  }

  /** A string that starts and ends with kept characters is left as it is. */
  lemma TrimIdempotentCore(t: string)
    requires t != [] ==> !IsTrimmed(t[0]) && !IsTrimmed(t[|t| - 1])
    ensures Trim(t) == t
  {
    KeptFromUnique(t, 0, 0);
    KeptUntilUnique(t, 0, |t|, |t|);
    assert t[0..|t|] == t;
  }

  // ---------------------------------------------------------------------------
  // String.equalsIgnoreCase

  /** `Character.toUpperCase` on ASCII: the letters `a`-`z` map to `A`-`Z`, everything else to itself. */
  function ToUpper(c: char): char {
    if 'a' <= c <= 'z' then (c as int - 32) as char else c
  }

  /** `Character.toLowerCase` on ASCII: the letters `A`-`Z` map to `a`-`z`, everything else to itself. */
  function ToLower(c: char): char {
    if 'A' <= c <= 'Z' then (c as int + 32) as char else c
  }

  /** The character test of `String.regionMatches(true, ...)`, on which `equalsIgnoreCase` rests. */
  predicate CharEqualsIgnoreCase(a: char, b: char) {
    a == b || ToUpper(a) == ToUpper(b) || ToLower(ToUpper(a)) == ToLower(ToUpper(b))
  }

  /** `a.equalsIgnoreCase(b)`: the same length and, position by position, the same letter up to case. */
  predicate EqualsIgnoreCase(a: string, b: string) {
    |a| == |b| && forall i :: 0 <= i < |a| ==> CharEqualsIgnoreCase(a[i], b[i])
  }

  function UpperCase(s: string): string {
    seq(|s|, i requires 0 <= i < |s| => ToUpper(s[i]))
  }

  function LowerCase(s: string): string {
    seq(|s|, i requires 0 <= i < |s| => ToLower(s[i]))
  }

  /** Each case mapping is idempotent and absorbs the other one applied first. */
  lemma CaseMappingLaws(c: char)
    ensures ToUpper(ToUpper(c)) == ToUpper(c) && ToLower(ToLower(c)) == ToLower(c)
    ensures ToUpper(ToLower(c)) == ToUpper(c) && ToLower(ToUpper(c)) == ToLower(c)
    ensures ToUpper(c) == c <==> !('a' <= c <= 'z')
  {
  }

  lemma CharEqualsIgnoreCaseIff(a: char, b: char)
    ensures CharEqualsIgnoreCase(a, b) <==> ToUpper(a) == ToUpper(b)
  {
  }

  /** Two strings are equal ignoring case exactly when their upper-case forms are equal. */
  lemma EqualsIgnoreCaseIff(a: string, b: string)
    ensures EqualsIgnoreCase(a, b) <==> UpperCase(a) == UpperCase(b)
  {
    if UpperCase(a) == UpperCase(b) {
      assert |a| == |b|;
      forall i | 0 <= i < |a| ensures CharEqualsIgnoreCase(a[i], b[i]) {
        assert UpperCase(a)[i] == UpperCase(b)[i];
      }
    }
    if EqualsIgnoreCase(a, b) {
      forall i | 0 <= i < |a| ensures UpperCase(a)[i] == UpperCase(b)[i] {
        CharEqualsIgnoreCaseIff(a[i], b[i]);
      }
    }
  }

  /** A hex digest compares equal to its upper-case and lower-case spellings. */
  lemma EqualsIgnoreCaseOfCase(s: string)
    ensures EqualsIgnoreCase(s, UpperCase(s)) && EqualsIgnoreCase(s, LowerCase(s))
  {
    forall i | 0 <= i < |s| ensures CharEqualsIgnoreCase(s[i], UpperCase(s)[i]) && CharEqualsIgnoreCase(s[i], LowerCase(s)[i]) {
    }
  }

  /** `equalsIgnoreCase` is an equivalence relation. */
  lemma EqualsIgnoreCaseEquivalence(a: string, b: string, c: string)
    ensures EqualsIgnoreCase(a, a)
    ensures EqualsIgnoreCase(a, b) ==> EqualsIgnoreCase(b, a)
    ensures EqualsIgnoreCase(a, b) && EqualsIgnoreCase(b, c) ==> EqualsIgnoreCase(a, c)
  {
    EqualsIgnoreCaseIff(a, a);
    EqualsIgnoreCaseIff(a, b);
    EqualsIgnoreCaseIff(b, a);
    EqualsIgnoreCaseIff(b, c);
    EqualsIgnoreCaseIff(a, c);
  }
}
