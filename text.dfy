/**
 * String helpers the condition parser relies on: splitting on one escaped
 * character (`re.split(re.escape(c), s)`) and the subset of Python's
 * `float(...)` that turns a threshold literal into a number.
 */
module Text {
  import opened Results

  /** Number of occurrences of `c` in `s`. */
  function Count(s: string, c: char): nat
  {
    if s == [] then 0 else (if s[0] == c then 1 else 0) + Count(s[1..], c)
  }

  /** `str(c).join(parts)`: the inverse of `SplitOn`. */
  function Join(parts: seq<string>, c: char): string
    requires |parts| > 0
  {
    if |parts| == 1 then parts[0] else parts[0] + [c] + Join(parts[1..], c)
  }

  /**
   * `re.split(re.escape(c), s)`: cut `s` at every occurrence of `c`, keeping
   * empty fields, so there is one more part than there are separators.
   */
  function SplitOn(s: string, c: char): (parts: seq<string>)
    ensures |parts| == Count(s, c) + 1
    ensures forall i :: 0 <= i < |parts| ==> c !in parts[i]
    ensures forall i :: 0 <= i < |parts| ==> |parts[i]| <= |s|
    ensures c in s ==> forall i :: 0 <= i < |parts| ==> |parts[i]| < |s|
    ensures Join(parts, c) == s
    decreases |s|
  {
    if s == [] then [""]
    else
      var rest := SplitOn(s[1..], c);
      if s[0] == c then
        assert s == [c] + s[1..];
        [""] + rest
      else
        var parts := [[s[0]] + rest[0]] + rest[1..];
        assert parts[1..] == rest[1..];
        assert s == [s[0]] + s[1..];
        parts
  }

  /** A string without the separator is not cut. */
  lemma {:induction false} SplitOnFree(a: string, c: char)
    requires c !in a
    ensures SplitOn(a, c) == [a]
    decreases |a|
  {
    if a != [] {
      assert c !in a[1..];
      SplitOnFree(a[1..], c);
    }
  }

  /** A separator-free field followed by the separator becomes the first part. */
  lemma {:induction false} SplitOnField(a: string, c: char, rest: string)
    requires c !in a
    ensures SplitOn(a + [c] + rest, c) == [a] + SplitOn(rest, c)
    decreases |a|
  {
    var s := a + [c] + rest;
    if a == [] {
      assert s[1..] == rest;
    } else {
      assert s[1..] == a[1..] + [c] + rest;
      assert c !in a[1..];
      SplitOnField(a[1..], c, rest);
      assert [a[0]] + a[1..] == a;
    }
  }

  /** Splitting undoes joining: `SplitOn` and `Join` are inverse to each other. */
  lemma {:induction false} SplitOnJoin(parts: seq<string>, c: char)
    requires |parts| > 0
    requires forall i :: 0 <= i < |parts| ==> c !in parts[i]
    ensures SplitOn(Join(parts, c), c) == parts
  {
    if |parts| == 1 {
      SplitOnFree(parts[0], c);
    } else {
      SplitOnJoin(parts[1..], c);
      SplitOnField(parts[0], c, Join(parts[1..], c));
    }
  }

  /** The characters Python's `float()` strips around a literal. */
  predicate IsSpace(ch: char)
  {
    ch == ' ' || ch == '\t' || ch == '\n' || ch == '\r' || ch == '\U{0B}' || ch == '\U{0C}'
  }

  /** `r` is `s` with whitespace, and only whitespace, cut from its two ends. */
  ghost predicate Trimmed(s: string, r: string)
  {
    exists i, j :: 0 <= i <= j <= |s| && r == s[i..j]
      && (forall k :: 0 <= k < i ==> IsSpace(s[k]))
      && (forall k :: j <= k < |s| ==> IsSpace(s[k]))
  }

  /** `s.strip()` for the whitespace `float()` ignores. */
  function Strip(s: string): (r: string)
    ensures Trimmed(s, r)
    ensures r == [] || (!IsSpace(r[0]) && !IsSpace(r[|r| - 1]))
    ensures (forall i :: 0 <= i < |s| ==> !IsSpace(s[i])) ==> r == s
    decreases |s|
  {
    if s == [] then
      assert s == s[0..0];
      s
    else if IsSpace(s[0]) then
      var r := Strip(s[1..]);
      TrimmedFront(s, r);
      r
    else if IsSpace(s[|s| - 1]) then
      var r := Strip(s[..|s| - 1]);
      TrimmedBack(s, r);
      r
    else
      assert s == s[0..|s|];
      s
  }

  /** Cutting `s[..i]` and `s[j..]`, both all whitespace, leaves a trimmed `s`. */
  lemma TrimmedAt(s: string, i: int, j: int)
    requires 0 <= i <= j <= |s|
    requires forall k :: 0 <= k < i ==> IsSpace(s[k])
    requires forall k :: j <= k < |s| ==> IsSpace(s[k])
    ensures Trimmed(s, s[i..j])
  {
  }

  lemma TrimmedFront(s: string, r: string)
    requires s != [] && IsSpace(s[0]) && Trimmed(s[1..], r)
    ensures Trimmed(s, r)
  {
    var t := s[1..];
    var i, j :| 0 <= i <= j <= |t| && r == t[i..j]
      && (forall k :: 0 <= k < i ==> IsSpace(t[k]))
      && (forall k :: j <= k < |t| ==> IsSpace(t[k]));
    assert r == s[i + 1..j + 1];
    forall k | 0 < k < |s| ensures s[k] == t[k - 1] {
    }
    TrimmedAt(s, i + 1, j + 1);
  }

  lemma TrimmedBack(s: string, r: string)
    requires s != [] && IsSpace(s[|s| - 1]) && Trimmed(s[..|s| - 1], r)
    ensures Trimmed(s, r)
  {
    var t := s[..|s| - 1];
    var i, j :| 0 <= i <= j <= |t| && r == t[i..j]
      && (forall k :: 0 <= k < i ==> IsSpace(t[k]))
      && (forall k :: j <= k < |t| ==> IsSpace(t[k]));
    assert r == s[i..j];
    forall k | 0 <= k < |s| - 1 ensures s[k] == t[k] {
    }
    TrimmedAt(s, i, j);
  }

  predicate IsDigit(ch: char)
  {
    '0' <= ch <= '9'
  }

  predicate AllDigits(s: string)
  {
    forall i :: 0 <= i < |s| ==> IsDigit(s[i])
  }

  /** The value of a run of decimal digits, most significant first. */
  function DigitsValue(s: string): nat
    requires AllDigits(s)
  {
    if s == [] then 0
    else DigitsValue(s[..|s| - 1]) * 10 + ((s[|s| - 1] as int) - ('0' as int))
  }

  function Pow10(n: nat): (r: nat)
    ensures r > 0
  {
    if n == 0 then 1 else 10 * Pow10(n - 1)
  }

  /** An unsigned decimal literal: digits, optionally one `.` and more digits. */
  function ParseUnsigned(body: string): Option<real>
  {
    var parts := SplitOn(body, '.');
    if |parts| == 1 && parts[0] != [] && AllDigits(parts[0]) then
      Some(DigitsValue(parts[0]) as real)
    else if |parts| == 2 && |parts[0]| + |parts[1]| > 0 && AllDigits(parts[0]) && AllDigits(parts[1]) then
      Some(DigitsValue(parts[0]) as real + (DigitsValue(parts[1]) as real) / (Pow10(|parts[1]|) as real))
    else
      None
  }

  /**
   * `float(s)` restricted to decimal literals: surrounding whitespace is
   * ignored, then an optional sign, then an unsigned decimal literal.
   * `None` is the `ValueError` Python raises.
   */
  function ParseReal(s: string): Option<real>
  {
    var t := Strip(s);
    if t != [] && (t[0] == '+' || t[0] == '-') then
      match ParseUnsigned(t[1..])
      case None => None
      case Some(v) => Some(if t[0] == '-' then -v else v)
    else
      ParseUnsigned(t)
  }

  /** The decimal digits of `n`, as `str(n)` writes them. */
  function NatText(n: nat): (s: string)
    ensures s != [] && AllDigits(s)
  {
    var d := [(('0' as int) + n % 10) as char];
    if n < 10 then d else NatText(n / 10) + d
  }

  /** `str(n)` is read back by `DigitsValue`. */
  lemma {:induction false} NatTextValue(n: nat)
    ensures DigitsValue(NatText(n)) == n
  {
    var s := NatText(n);
    assert s[..|s| - 1] == if n < 10 then [] else NatText(n / 10);
    if n >= 10 {
      NatTextValue(n / 10);
    }
  }

  /** `float(str(n)) == n` for every natural number `n`. */
  lemma ParseRealOfNat(n: nat)
    ensures ParseReal(NatText(n)) == Some(n as real)
  {
    var s := NatText(n);
    assert forall i :: 0 <= i < |s| ==> IsDigit(s[i]);
    assert Strip(s) == s;
    assert s[0] != '+' && s[0] != '-';
    assert ParseReal(s) == ParseUnsigned(s);
    assert '.' !in s;
    SplitOnFree(s, '.');
    NatTextValue(n);
  }

  /** The optional sign in front of a literal. */
  datatype Sign = Unsigned | Plus | Minus

  /**
   * A decimal literal as `float()` reads it: a sign, the digits before the
   * point and, when there is a point, the digits after it.
   */
  datatype Decimal = Decimal(sign: Sign, whole: string, frac: Option<string>)

  predicate WellFormedDecimal(d: Decimal)
  {
    && AllDigits(d.whole)
    && (d.frac.None? ==> d.whole != [])
    && (d.frac.Some? ==> AllDigits(d.frac.value) && |d.whole| + |d.frac.value| > 0)
  }

  function SignText(sg: Sign): string
  {
    match sg
    case Unsigned => ""
    case Plus => "+"
    case Minus => "-"
  }

  /** The literal without its sign. */
  function UnsignedText(d: Decimal): string
  {
    d.whole + (if d.frac.Some? then "." + d.frac.value else "")
  }

  /** How the literal is spelled. */
  function DecimalText(d: Decimal): string
  {
    SignText(d.sign) + UnsignedText(d)
  }

  /** The exact number the literal's digits denote, ignoring its sign. */
  function Magnitude(d: Decimal): real
    requires WellFormedDecimal(d)
  {
    DigitsValue(d.whole) as real
      + (if d.frac.Some? then (DigitsValue(d.frac.value) as real) / (Pow10(|d.frac.value|) as real) else 0.0)
  }

  /** The exact number the literal denotes. */
  function DecimalValue(d: Decimal): real
    requires WellFormedDecimal(d)
  {
    if d.sign == Minus then -Magnitude(d) else Magnitude(d)
  }

  /** The unsigned part of a literal is read as its digits and fraction. */
  lemma ParseUnsignedOfDecimal(d: Decimal)
    requires WellFormedDecimal(d)
    ensures ParseUnsigned(UnsignedText(d)) == Some(Magnitude(d))
  {
    assert '.' !in d.whole;
    if d.frac.Some? {
      var f := d.frac.value;
      assert '.' !in f;
      assert UnsignedText(d) == d.whole + ['.'] + f;
      SplitOnField(d.whole, '.', f);
      SplitOnFree(f, '.');
    } else {
      assert UnsignedText(d) == d.whole;
      SplitOnFree(d.whole, '.');
    }
  }

  /** A literal has no whitespace, so `Strip` leaves it alone. */
  lemma DecimalTextStripped(d: Decimal)
    requires WellFormedDecimal(d)
    ensures UnsignedText(d) != []
    ensures UnsignedText(d)[0] != '+' && UnsignedText(d)[0] != '-'
    ensures forall i :: 0 <= i < |DecimalText(d)| ==>
      IsDigit(DecimalText(d)[i]) || DecimalText(d)[i] == '.' || DecimalText(d)[i] == '+' || DecimalText(d)[i] == '-'
    ensures Strip(DecimalText(d)) == DecimalText(d)
  {
    var u := UnsignedText(d);
    var p := SignText(d.sign);
    assert forall i :: 0 <= i < |u| ==> IsDigit(u[i]) || u[i] == '.';
    var s := DecimalText(d);
    forall i | 0 <= i < |s| ensures !IsSpace(s[i]) {
      if i >= |p| {
        assert s[i] == u[i - |p|];
      }
    }
    forall i | 0 <= i < |s| ensures IsDigit(s[i]) || s[i] == '.' || s[i] == '+' || s[i] == '-' {
      if i >= |p| {
        assert s[i] == u[i - |p|];
      }
    }
  }

  /** An unsigned text without surrounding whitespace is read by `ParseUnsigned`. */
  lemma ParseRealBare(u: string)
    requires u != [] && u[0] != '+' && u[0] != '-' && Strip(u) == u
    ensures ParseReal(u) == ParseUnsigned(u)
  {
  }

  /** A signed text without surrounding whitespace is read as its unsigned part, signed. */
  lemma ParseRealSigned(sign: char, u: string)
    requires sign == '+' || sign == '-'
    requires Strip([sign] + u) == [sign] + u
    ensures ParseReal([sign] + u)
         == match ParseUnsigned(u)
            case None => None
            case Some(v) => Some(if sign == '-' then -v else v)
  {
    assert ([sign] + u)[1..] == u;
  }

  /** `float()` reads every decimal literal back as the number it denotes. */
  lemma ParseRealOfDecimal(d: Decimal)
    requires WellFormedDecimal(d)
    ensures ParseReal(DecimalText(d)) == Some(DecimalValue(d))
  {
    DecimalTextStripped(d);
    ParseUnsignedOfDecimal(d);
    var u := UnsignedText(d);
    match d.sign
    case Unsigned =>
      assert DecimalText(d) == u;
      ParseRealBare(u);
    case Plus =>
      assert DecimalText(d) == ['+'] + u;
      ParseRealSigned('+', u);
    case Minus =>
      assert DecimalText(d) == ['-'] + u;
      ParseRealSigned('-', u);
  }
}
