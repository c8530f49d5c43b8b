/** `GdFormat`, the canonical text form of a field value (ef19-core/src/codec/format.rs):
    booleans as "0"/"1", integers and colours in plain decimal, strings as they are,
    and an `f32` rendered with four decimals and then trimmed. */
module GdFormat {
  import opened Wrappers
  import opened Scalars
  import opened Extract
  import opened Colors

  /** `bool::gd_format`. */
  function FormatBool(b: bool): string {
    if b then "1" else "0"
  }

  /** `gd_format` for the integer types: `to_string`. */
  function FormatInteger(n: int): string {
    FormatInt(n)
  }

  /** `Color::gd_format`: the discriminant in decimal. */
  function FormatColor(c: Color): string {
    FormatInteger(Discriminant(c))
  }

  /** A formatted boolean reads back as itself under the boolean rule, and spells
      nothing else. */
  lemma BoolRoundTrip(b: bool)
    ensures ParseFlag(FormatBool(b)) == Some(b)
    ensures FlagText(FormatBool(b), b) && !FlagText(FormatBool(b), !b)
  {
    ParseFlagText(FormatBool(b));
    assert ZerosThen(FormatBool(b), if b then '1' else '0');
  }

  /** A formatted integer of type `t` parses back as the same value. */
  lemma IntegerRoundTrip(n: int, t: IntType)
    requires InRange(n, t)
    ensures ParseInt(FormatInteger(n), t) == Some(n)
  {
    ParseFormatInt(n, t);
  }

  /** A formatted colour reads back, as a `u8` through the legacy table, as itself;
      its id is never 0. */
  lemma ColorRoundTrip(c: Color)
    ensures ParseInt(FormatColor(c), U8) == Some(Discriminant(c))
    ensures Discriminant(c) != 0
    ensures FromOldId(Discriminant(c)) == Some(c)
  {
    ParseFormatInt(Discriminant(c), U8);
  }

  /** `String::gd_format`: the identity. */
  function FormatString(s: string): string {
    s
  }

  /** A formatted string reads back as itself under every string rule. */
  lemma StringRoundTrip(m: map<string, string>, k: string, s: string, d: string)
    ensures OptionalString(m[k := FormatString(s)], k).value == Some(s)
    ensures RequiredString(m[k := FormatString(s)], k) == Some(Taken(s, m - {k}))
    ensures DefaultedString(m[k := FormatString(s)], k, d).value == s
  {
    assert m[k := s] - {k} == m - {k};
  }

  /** `trim_end_matches("0")`: the longest prefix not ending in `0`; everything cut off
      is `0`. */
  function TrimZeros(s: string): (r: string)
    ensures |r| <= |s| && r == s[..|r|]
    ensures |r| == 0 || r[|r| - 1] != '0'
    ensures forall i :: |r| <= i < |s| ==> s[i] == '0'
    decreases |s|
  {
    if |s| > 0 && s[|s| - 1] == '0' then TrimZeros(s[..|s| - 1]) else s
  }

  /** The string part of `f32::gd_format`, applied to the `{:.4}` rendering: trailing
      zeros go, then one trailing `.`. */
  function TrimFloat(s: string): (r: string)
    ensures |r| <= |s| && r == s[..|r|]
  {
    var t := TrimZeros(s);
    if |t| > 0 && t[|t| - 1] == '.' then t[..|t| - 1] else t
  }

  /** Trimming a concatenation: the zeros of the tail go first, and trimming reaches the
      head only when the tail was all zeros. */
  lemma {:induction false} TrimZerosAppend(p: string, q: string)
    ensures TrimZeros(p + q) == if TrimZeros(q) == "" then TrimZeros(p) else p + TrimZeros(q)
    decreases |q|
  {
    if |q| == 0 {
      assert p + q == p;
    } else if q[|q| - 1] == '0' {
      var q' := q[..|q| - 1];
      assert (p + q)[..|p + q| - 1] == p + q';
      TrimZerosAppend(p, q');
    }
  }

  /** A fixed-point rendering: an optional `-`, a non-empty integer part, `.`, digits. */
  predicate FixedPoint(sign: string, whole: string, frac: string) {
    && (sign == "" || sign == "-")
    && |whole| > 0 && AllDigits(whole)
    && AllDigits(frac)
  }

  /** Trimming stops at the point: only the fraction's trailing zeros go, and the
      point goes with them when nothing of the fraction is left. */
  lemma TrimFixedPointValue(sign: string, whole: string, frac: string)
    requires FixedPoint(sign, whole, frac)
    ensures var f := TrimZeros(frac);
            TrimFloat(sign + whole + "." + frac) == sign + whole + (if f == "" then "" else "." + f)
  {
    if TrimZeros(frac) == "" {
      PointDropped(sign + whole, frac);
    } else {
      var f := TrimZeros(frac);
      assert IsDigit(frac[|f| - 1]);
      PointKept(sign + whole, frac, f);
    }
  }

  /** A fraction of zeros goes with its point. */
  lemma PointDropped(front: string, frac: string)
    requires TrimZeros(frac) == ""
    ensures TrimFloat(front + "." + frac) == front
  {
    var head := front + ".";
    TrimZerosAfterPoint(head, frac);
    TrimFloatDrops(head + frac, head);
    assert head[..|head| - 1] == front;
  }

  /** A fraction of digits that are not all zeros keeps its point and its digits up to
      the last non-zero one. */
  lemma PointKept(front: string, frac: string, f: string)
    requires f == TrimZeros(frac) && f != "" && f[|f| - 1] != '.'
    ensures TrimFloat(front + "." + frac) == front + ("." + f)
  {
    var head := front + ".";
    TrimZerosAfterPoint(head, frac);
    var t := head + f;
    assert t[|t| - 1] == f[|f| - 1];
    TrimFloatKeeps(head + frac, t);
    assert t == front + ("." + f);
  }

  /** When the zeros are trimmed down to a `.`, the `.` goes too. */
  lemma TrimFloatDrops(s: string, t: string)
    requires TrimZeros(s) == t && |t| > 0 && t[|t| - 1] == '.'
    ensures TrimFloat(s) == t[..|t| - 1]
  {
  }

  /** When the zeros are trimmed down to anything but a `.`, nothing more goes. */
  lemma TrimFloatKeeps(s: string, t: string)
    requires TrimZeros(s) == t && (|t| == 0 || t[|t| - 1] != '.')
    ensures TrimFloat(s) == t
  {
  }

  /** Trimming zeros never reaches past a `.`. */
  lemma TrimZerosAfterPoint(head: string, frac: string)
    requires |head| > 0 && head[|head| - 1] == '.'
    ensures TrimZeros(head + frac) == if TrimZeros(frac) == "" then head else head + TrimZeros(frac)
  {
    TrimZerosAppend(head, frac);
  }

  /** An optional `-` and a non-empty run of digits: no `.`, and ends in a digit. */
  lemma IntegerPart(sign: string, whole: string)
    requires sign == "" || sign == "-"
    requires |whole| > 0 && AllDigits(whole)
    ensures '.' !in sign + whole
    ensures IsDigit((sign + whole)[|sign + whole| - 1])
  {
    var sw := sign + whole;
    forall i | 0 <= i < |sw| ensures sw[i] != '.' {
      if i < |sign| {
        assert sw[i] == '-';
      } else {
        assert sw[i] == whole[i - |sign|];
      }
    }
    assert sw[|sw| - 1] == whole[|whole| - 1];
  }

  /** On a fixed-point rendering the trimming only touches the fraction: the result is
      the sign and integer part unchanged, then `.` and the fraction without trailing
      zeros if any digit is left. So it never ends in `.`, and never in `0` once it
      holds a `.`. */
  lemma TrimFixedPoint(sign: string, whole: string, frac: string)
    requires FixedPoint(sign, whole, frac)
    ensures var r := TrimFloat(sign + whole + "." + frac);
            var f := TrimZeros(frac);
            && r == sign + whole + (if f == "" then "" else "." + f)
            && r[..|sign + whole|] == sign + whole
            && r[|r| - 1] != '.'
            && ('.' in r ==> r[|r| - 1] != '0')
  {
    TrimFixedPointValue(sign, whole, frac);
    IntegerPart(sign, whole);
    var f := TrimZeros(frac);
    if f != "" {
      assert IsDigit(frac[|f| - 1]);
    }
    TrimmedShape(sign + whole, f, TrimFloat(sign + whole + "." + frac));
  }

  /** A front with no `.` ending in a digit, then `.` and a fraction ending in a
      non-zero digit if the fraction is not empty: the front is kept as it is, the
      whole never ends in `.`, and ends in `0` only without a `.`. */
  lemma TrimmedShape(sw: string, f: string, r: string)
    requires |sw| > 0 && '.' !in sw && IsDigit(sw[|sw| - 1])
    requires f != "" ==> f[|f| - 1] != '0' && IsDigit(f[|f| - 1])
    requires r == sw + (if f == "" then "" else "." + f)
    ensures r[..|sw|] == sw
    ensures r[|r| - 1] != '.'
    ensures '.' in r ==> r[|r| - 1] != '0'
  {
    if f == "" {
      assert r == sw;
    } else {
      assert r[..|sw|] == sw;
      assert r[|r| - 1] == f[|f| - 1];
    }
  }

  /** A fraction with digits left: "44.3000" is "44.3" and "-0.5000" is "-0.5". */
  lemma TrimFloatKeepsFraction()
    ensures TrimFloat("44.3000") == "44.3"
    ensures TrimFloat("-0.5000") == "-0.5"
  {
    assert TrimFloat("44.3000") == "44.3" by {
      assert "44.3000"[..6] == "44.300" && "44.300"[..5] == "44.30" && "44.30"[..4] == "44.3";
    }
    assert TrimFloat("-0.5000") == "-0.5" by {
      assert "-0.5000"[..6] == "-0.500" && "-0.500"[..5] == "-0.50" && "-0.50"[..4] == "-0.5";
    }
  }

  /** A fraction of zeros goes with its point, and the zeros of the integer part stay:
      "0.0000" is "0" and "10.0000" is "10". */
  lemma TrimFloatDropsFraction()
    ensures TrimFloat("0.0000") == "0"
    ensures TrimFloat("10.0000") == "10"
  {
    assert TrimFloat("0.0000") == "0" by {
      assert "0.0000"[..5] == "0.000" && "0.000"[..4] == "0.00" && "0.00"[..3] == "0.0";
      assert "0.0"[..2] == "0." && "0."[..1] == "0";
    }
    assert TrimFloat("10.0000") == "10" by {
      assert "10.0000"[..6] == "10.000" && "10.000"[..5] == "10.00" && "10.00"[..4] == "10.0";
      assert "10.0"[..3] == "10." && "10."[..2] == "10";
    }
  }

  /** Every boolean rule reads a formatted boolean back as itself. */
  lemma BoolReadBack(m: map<string, string>, k: string, b: bool, d: bool)
    ensures OptionalBool(m[k := FormatBool(b)], k).value == Some(b)
    ensures RequiredBool(m[k := FormatBool(b)], k).Some?
    ensures RequiredBool(m[k := FormatBool(b)], k).value.value == b
    ensures DefaultedBool(m[k := FormatBool(b)], k, d).value == b
  {
    BoolRoundTrip(b);
    ParseFlagText(FormatBool(b));
  }
}
