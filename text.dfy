/**
 * The Python string operations the engine relies on: `str.strip()`,
 * `str.strip(chars)`, `str.replace(old, '')`, `str.split(sep)`,
 * `str.startswith` and `float(str)` restricted to decimal notation.
 */
module Text {
  import opened Wrappers

  /**
   * The characters for which Python's `str.isspace` holds, by code point:
   * the ASCII controls 9-13 and 28-31, the space, NEL, NO-BREAK SPACE, the
   * Ogham space mark, the spaces 0x2000-0x200A, the line and paragraph
   * separators, the narrow no-break space, the medium mathematical space
   * and the ideographic space.
   */
  predicate IsSpace(c: char) {
    var n := c as int;
    || 9 <= n <= 13 || 28 <= n <= 32
    || n == 0x85 || n == 0xA0 || n == 0x1680
    || 0x2000 <= n <= 0x200A
    || n == 0x2028 || n == 0x2029 || n == 0x202F || n == 0x205F || n == 0x3000
  }

  /** Drops the leading characters satisfying `drop` (the left half of `str.strip`). */
  function TrimLeft(s: string, drop: char -> bool): (r: string)
    ensures |r| <= |s| && r == s[|s| - |r|..]
    ensures r != [] ==> !drop(r[0])
    ensures forall i :: 0 <= i < |s| - |r| ==> drop(s[i])
  {
    if s != [] && drop(s[0]) then TrimLeft(s[1..], drop) else s
  }

  /** Drops the trailing characters satisfying `drop` (the right half of `str.strip`). */
  function TrimRight(s: string, drop: char -> bool): (r: string)
    ensures |r| <= |s| && r == s[..|r|]
    ensures r != [] ==> !drop(r[|r| - 1])
    ensures forall i :: |r| <= i < |s| ==> drop(s[i])
  {
    if s != [] && drop(s[|s| - 1]) then TrimRight(s[..|s| - 1], drop) else s
  }

  /** `s.strip(chars)`: leading, then trailing characters of the set go. */
  function StripBy(s: string, drop: char -> bool): string {
    TrimRight(TrimLeft(s, drop), drop)
  }

  /** `s.strip()` with no argument. */
  function Strip(s: string): string {
    StripBy(s, IsSpace)
  }

  predicate StartsWith(s: string, prefix: string) {
    |prefix| <= |s| && s[..|prefix|] == prefix
  }

  /**
   * `s.replace(pat, '')`: one left-to-right pass removing non-overlapping
   * occurrences of `pat`.
   */
  function RemoveAll(s: string, pat: string): (r: string)
    requires pat != []
    ensures |r| <= |s|
    ensures |pat| == 1 ==> pat[0] !in r
    decreases |s|
  {
    if |s| < |pat| then
      (if |pat| == 1 then assert s == []; s else s)
    else if s[..|pat|] == pat then RemoveAll(s[|pat|..], pat)
    else [s[0]] + RemoveAll(s[1..], pat)
  }

  lemma {:induction false} RemoveCharAbsent(s: string, c: char)
    requires c !in s
    ensures RemoveAll(s, [c]) == s
    decreases |s|
  {
    if s != [] {
      assert s[..1] == [s[0]];
      RemoveCharAbsent(s[1..], c);
      assert s == [s[0]] + s[1..];
    }
  }

  lemma {:induction false} RemoveCharConcat(a: string, b: string, c: char)
    ensures RemoveAll(a + b, [c]) == RemoveAll(a, [c]) + RemoveAll(b, [c])
    decreases |a|
  {
    if a != [] {
      assert (a + b)[..1] == a[..1] == [a[0]];
      assert (a + b)[1..] == a[1..] + b;
      RemoveCharConcat(a[1..], b, c);
    } else {
      assert a + b == b;
    }
  }

  /** `s.split(sep)` for a one-character separator: always at least one part, none containing `sep`. */
  function Split(s: string, sep: char): (parts: seq<string>)
    ensures |parts| >= 1
    ensures forall i :: 0 <= i < |parts| ==> sep !in parts[i]
  {
    if s == [] then [[]]
    else
      var rest := Split(s[1..], sep);
      if s[0] == sep then [[]] + rest
      else [[s[0]] + rest[0]] + rest[1..]
  }

  /** `sep.join(parts)`, the inverse of `Split`. */
  function Join(parts: seq<string>, sep: char): string {
    if parts == [] then []
    else if |parts| == 1 then parts[0]
    else parts[0] + [sep] + Join(parts[1..], sep)
  }

  lemma {:induction false} JoinSplit(s: string, sep: char)
    ensures Join(Split(s, sep), sep) == s
  {
    if s != [] {
      var rest := Split(s[1..], sep);
      JoinSplit(s[1..], sep);
      if s[0] == sep {
        assert Split(s, sep)[1..] == rest;
      } else {
        var parts := Split(s, sep);
        assert parts[1..] == rest[1..];
        if |rest| == 1 {
          assert Join(parts, sep) == [s[0]] + rest[0];
        } else {
          assert Join(rest, sep) == rest[0] + [sep] + Join(rest[1..], sep);
        }
      }
    }
  }

  lemma {:induction false} SplitWithoutSeparator(s: string, sep: char)
    requires sep !in s
    ensures Split(s, sep) == [s]
  {
    if s != [] {
      SplitWithoutSeparator(s[1..], sep);
      assert [s[0]] + s[1..] == s;
    }
  }

  lemma {:induction false} SplitAtFirstSeparator(a: string, sep: char, tail: string)
    requires sep !in a
    ensures Split(a + [sep] + tail, sep) == [a] + Split(tail, sep)
    decreases |a|
  {
    if a == [] {
      assert a + [sep] + tail == [sep] + tail;
      assert ([sep] + tail)[1..] == tail;
    } else {
      assert (a + [sep] + tail)[1..] == a[1..] + [sep] + tail;
      SplitAtFirstSeparator(a[1..], sep, tail);
      assert [a[0]] + a[1..] == a;
    }
  }

  // ---------------------------------------------------------------- numbers

  predicate IsDigit(c: char) {
    '0' <= c <= '9'
  }

  predicate AllDigits(s: string) {
    forall i :: 0 <= i < |s| ==> IsDigit(s[i])
  }

  function DigitValue(c: char): nat
    requires IsDigit(c)
  {
    c as int - '0' as int
  }

  function Pow10(n: nat): nat {
    if n == 0 then 1 else 10 * Pow10(n - 1)
  }

  /** The value of a run of decimal digits read left to right. */
  function IntegerValue(ds: string): (v: nat)
    requires AllDigits(ds)
    ensures v < Pow10(|ds|)
  {
    if ds == [] then 0
    else
      var prev := IntegerValue(ds[..|ds| - 1]);
      assert prev + 1 <= Pow10(|ds| - 1);
      assert (prev + 1) * 10 <= Pow10(|ds| - 1) * 10;
      prev * 10 + DigitValue(ds[|ds| - 1])
  }

  /** The value of the digits after a decimal point. */
  function FractionValue(ds: string): (v: real)
    requires AllDigits(ds)
    ensures 0.0 <= v < 1.0
  {
    if ds == [] then 0.0
    else (DigitValue(ds[0]) as real + FractionValue(ds[1..])) / 10.0
  }

  /** Unsigned decimal notation: digits, optionally a point and more digits, at least one digit in all. */
  function ParseUnsigned(t: string): (r: Option<real>)
    ensures r.Some? ==> r.value >= 0.0
  {
    var parts := Split(t, '.');
    if |parts| == 1 then
      if t != [] && AllDigits(t) then Some(IntegerValue(t) as real) else None
    else if |parts| == 2 && |parts[0]| + |parts[1]| > 0 && AllDigits(parts[0]) && AllDigits(parts[1]) then
      Some(IntegerValue(parts[0]) as real + FractionValue(parts[1]))
    else None
  }

  /**
   * `float(s)` on decimal notation: surrounding white space is ignored and
   * an optional sign may lead; anything else is a `ValueError`, here `None`.
   */
  function ParseNumber(s: string): (r: Option<real>)
    ensures r.Some? ==> Strip(s) != []
    ensures r.Some? && Strip(s)[0] == '-' ==> r.value <= 0.0
    ensures r.Some? && IsDigit(Strip(s)[0]) ==> r.value >= 0.0
  {
    ParseSigned(Strip(s))
  }

  /** Decimal notation after stripping: an optional sign, then unsigned notation. */
  function ParseSigned(t: string): Option<real> {
    if t != [] && (t[0] == '-' || t[0] == '+') then
      match ParseUnsigned(t[1..])
      case Some(v) => Some(if t[0] == '-' then -v else v)
      case None => None
    else ParseUnsigned(t)
  }

  /** The decimal text of a natural number, most significant digit first. */
  function NatText(n: nat): (s: string)
    ensures s != [] && AllDigits(s)
  {
    if n < 10 then [('0' as int + n) as char]
    else NatText(n / 10) + [('0' as int + n % 10) as char]
  }

  lemma {:induction false} IntegerValueOfNatText(n: nat)
    ensures IntegerValue(NatText(n)) == n
  {
    if n >= 10 {
      var s := NatText(n);
      assert s[..|s| - 1] == NatText(n / 10);
      IntegerValueOfNatText(n / 10);
    }
  }

  lemma StripUnchanged(s: string)
    requires s != [] && !IsSpace(s[0]) && !IsSpace(s[|s| - 1])
    ensures Strip(s) == s
  {
    assert TrimLeft(s, IsSpace) == s;
    assert TrimRight(s, IsSpace) == s;
  }

  /** Round trip: the text of a natural number, with or without a minus sign, parses back to it. */
  lemma ParseNumberNatText(n: nat)
    ensures ParseNumber(NatText(n)) == Some(n as real)
    ensures ParseNumber("-" + NatText(n)) == Some(-(n as real))
  {
    ParsePlainNatText(n);
    ParseNegatedNatText(n);
  }

  lemma ParsePlainNatText(n: nat)
    ensures ParseNumber(NatText(n)) == Some(n as real)
  {
    var s := NatText(n);
    assert IsDigit(s[0]) && IsDigit(s[|s| - 1]);
    StripUnchanged(s);
    ParseUnsignedNatText(n);
  }

  lemma ParseNegatedNatText(n: nat)
    ensures ParseNumber("-" + NatText(n)) == Some(-(n as real))
  {
    var s := NatText(n);
    var m := "-" + s;
    assert IsDigit(s[|s| - 1]);
    assert m[|m| - 1] == s[|s| - 1];
    StripUnchanged(m);
    assert m[1..] == s;
    ParseUnsignedNatText(n);
  }

  /** A decimal as written: an optional minus sign, the whole part, and the digits after the point (none: no point). */
  datatype Decimal = Decimal(negative: bool, whole: nat, fraction: string)

  /** The digits of the whole part, then the point and the fraction's digits when there are any. */
  function UnsignedText(whole: nat, fraction: string): string
    requires AllDigits(fraction)
  {
    if fraction == [] then NatText(whole) else NatText(whole) + "." + fraction
  }

  function DecimalText(d: Decimal): string
    requires AllDigits(d.fraction)
  {
    if d.negative then "-" + UnsignedText(d.whole, d.fraction) else UnsignedText(d.whole, d.fraction)
  }

  function DecimalValue(d: Decimal): real
    requires AllDigits(d.fraction)
  {
    var v := d.whole as real + FractionValue(d.fraction);
    if d.negative then -v else v
  }

  /** A decimal text starts with a digit or a minus and ends in a digit. */
  lemma DecimalTextEnds(d: Decimal)
    requires AllDigits(d.fraction)
    ensures var s := DecimalText(d);
      s != [] && (IsDigit(s[0]) || s[0] == '-') && (IsDigit(s[0]) <==> !d.negative) && IsDigit(s[|s| - 1])
  {
    var whole := NatText(d.whole);
    var u := UnsignedText(d.whole, d.fraction);
    var s := DecimalText(d);
    assert s[|s| - 1] == u[|u| - 1];
    if d.fraction == [] {
      assert u[|u| - 1] == whole[|whole| - 1];
    } else {
      assert u[|u| - 1] == d.fraction[|d.fraction| - 1];
    }
    assert u[0] == whole[0];
  }

  /** The characters of a decimal text: digits, a leading minus and a point. */
  lemma DecimalTextCharacters(d: Decimal)
    requires AllDigits(d.fraction)
    ensures var s := DecimalText(d);
      forall i :: 0 <= i < |s| ==> IsDigit(s[i]) || s[i] == '-' || s[i] == '.'
  {
    var sign := if d.negative then "-" else "";
    var whole := NatText(d.whole);
    var tail := if d.fraction == [] then "" else "." + d.fraction;
    var s := DecimalText(d);
    assert s == sign + whole + tail by {
      if d.fraction == [] {
        assert whole + tail == whole;
      }
      if !d.negative {
        assert sign + UnsignedText(d.whole, d.fraction) == UnsignedText(d.whole, d.fraction);
      }
    }
    forall i | 0 <= i < |s| ensures IsDigit(s[i]) || s[i] == '-' || s[i] == '.' {
      if i < |sign| {
        assert s[i] == '-';
      } else if i < |sign| + |whole| {
        assert s[i] == whole[i - |sign|];
      } else {
        assert s[i] == tail[i - |sign| - |whole|];
      }
    }
  }

  /** Unsigned decimal text reads back as its value. */
  lemma ParseUnsignedDecimal(whole: nat, fraction: string)
    requires AllDigits(fraction)
    ensures ParseUnsigned(UnsignedText(whole, fraction)) == Some(whole as real + FractionValue(fraction))
  {
    if fraction == [] {
      ParseUnsignedNatText(whole);
    } else {
      var w := NatText(whole);
      assert '.' !in w by {
        forall i | 0 <= i < |w| ensures w[i] != '.' { assert IsDigit(w[i]); }
      }
      assert '.' !in fraction by {
        forall i | 0 <= i < |fraction| ensures fraction[i] != '.' { assert IsDigit(fraction[i]); }
      }
      assert UnsignedText(whole, fraction) == w + ['.'] + fraction;
      SplitAtFirstSeparator(w, '.', fraction);
      SplitWithoutSeparator(fraction, '.');
      IntegerValueOfNatText(whole);
    }
  }

  /** Round trip: the text of a signed decimal parses back to its value. */
  lemma ParseDecimalText(d: Decimal)
    requires AllDigits(d.fraction)
    ensures ParseNumber(DecimalText(d)) == Some(DecimalValue(d))
  {
    var u := UnsignedText(d.whole, d.fraction);
    var v := d.whole as real + FractionValue(d.fraction);
    DecimalTextStripped(d);
    ParseUnsignedDecimal(d.whole, d.fraction);
    if d.negative {
      ParseMinus(DecimalText(d), u, v);
    } else {
      ParseWithoutSign(DecimalText(d), v);
    }
    assert ParseNumber(DecimalText(d)) == ParseSigned(DecimalText(d));
  }

  lemma DecimalTextStripped(d: Decimal)
    requires AllDigits(d.fraction)
    ensures Strip(DecimalText(d)) == DecimalText(d)
    ensures d.negative || IsDigit(DecimalText(d)[0])
  {
    DecimalTextEnds(d);
    StripUnchanged(DecimalText(d));
  }

  /** Text that starts with a digit is read as unsigned. */
  lemma ParseWithoutSign(s: string, v: real)
    requires s != [] && IsDigit(s[0]) && ParseUnsigned(s) == Some(v)
    ensures ParseSigned(s) == Some(v)
  {
  }

  /** A minus sign in front of an unsigned text negates its value. */
  lemma ParseMinus(s: string, unsigned: string, v: real)
    requires s == "-" + unsigned && ParseUnsigned(unsigned) == Some(v)
    ensures ParseSigned(s) == Some(-v)
  {
    assert s[1..] == unsigned;
  }

  lemma ParseUnsignedNatText(n: nat)
    ensures ParseUnsigned(NatText(n)) == Some(n as real)
  {
    var s := NatText(n);
    assert '.' !in s by {
      forall i | 0 <= i < |s| ensures s[i] != '.' { assert IsDigit(s[i]); }
    }
    SplitWithoutSeparator(s, '.');
    IntegerValueOfNatText(n);
  }
}
