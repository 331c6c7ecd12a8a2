/**
 Decimal text and the two Java library parsers the Reading constructor relies on:
 `Integer.parseInt` (humidity) and `Double.parseDouble` (temperature), restricted to
 the inputs a `real` can represent. Each parser has a formatting partner and a
 round-trip lemma.
 */
module Numerals {
  import opened Options

  /** The range of a Java `int`. */
  const INT_MIN: int := -0x8000_0000
  const INT_MAX: int := 0x7fff_ffff

  predicate IsDigit(c: char) {
    '0' <= c <= '9'
  }

  predicate AllDigits(s: string) {
    forall i :: 0 <= i < |s| ==> IsDigit(s[i])
  }

  function DigitValue(c: char): nat
    requires IsDigit(c)
  {
    (c as int) - ('0' as int)
  }

  function DigitChar(d: nat): (c: char)
    requires d < 10
    ensures IsDigit(c) && DigitValue(c) == d
  {
    ((d + '0' as int) as char)
  }

  function Pow10(k: nat): (p: nat)
    ensures p >= 1
  {
    if k == 0 then 1 else 10 * Pow10(k - 1)
  }

  /** The number a string of decimal digits denotes, most significant digit first. */
  function DigitsValue(s: string): nat
    requires AllDigits(s)
  {
    if |s| == 0 then 0 else 10 * DigitsValue(s[..|s| - 1]) + DigitValue(s[|s| - 1])
  }

  /** Exactly `w` digits: the last `w` decimal digits of `n`, zero-padded on the left. */
  function PadDigits(n: nat, w: nat): (s: string)
    ensures |s| == w && AllDigits(s)
  {
    if w == 0 then [] else PadDigits(n / 10, w - 1) + [DigitChar(n % 10)]
  }

  /** The shortest digit string denoting `n`. */
  function NatToDigits(n: nat): (s: string)
    ensures |s| > 0 && AllDigits(s)
  {
    if n < 10 then [DigitChar(n)] else NatToDigits(n / 10) + [DigitChar(n % 10)]
  }

  /** A number below `10^w` is recovered from its `w`-digit rendering. */
  lemma {:induction false} PadDigitsValue(n: nat, w: nat)
    requires n < Pow10(w)
    ensures DigitsValue(PadDigits(n, w)) == n
  {
    if w > 0 {
      var s := PadDigits(n, w);
      assert s[..w - 1] == PadDigits(n / 10, w - 1);
      assert n / 10 < Pow10(w - 1);
      PadDigitsValue(n / 10, w - 1);
      assert DigitsValue(s) == 10 * (n / 10) + n % 10;
    }
  }

  /** Any digit string is the padded rendering of its own value: no two digit strings of the same length share a value. */
  lemma {:induction false} DigitsPadded(s: string)
    requires AllDigits(s)
    ensures DigitsValue(s) < Pow10(|s|)
    ensures PadDigits(DigitsValue(s), |s|) == s
  {
    if |s| > 0 {
      var init := s[..|s| - 1];
      DigitsPadded(init);
      var v := DigitsValue(s);
      assert v / 10 == DigitsValue(init);
      assert v % 10 == DigitValue(s[|s| - 1]);
      assert DigitChar(v % 10) == s[|s| - 1];
      assert s == init + [s[|s| - 1]];
    }
  }

  /** The shortest rendering denotes the number rendered. */
  lemma {:induction false} NatToDigitsValue(n: nat)
    ensures DigitsValue(NatToDigits(n)) == n
  {
    if n >= 10 {
      var s := NatToDigits(n);
      assert s[..|s| - 1] == NatToDigits(n / 10);
      NatToDigitsValue(n / 10);
    }
  }

  // ---------------------------------------------------------------------------
  // Integer.parseInt

  /** Java's rendering of an `int` in decimal (`Integer.toString`). */
  function IntToString(n: int): string
  {
    if n < 0 then "-" + NatToDigits(-n) else NatToDigits(n)
  }

  /** An optional `+` or `-`, then at least one decimal digit. */
  predicate SignedDigits(x: string) {
    && |x| > 0
    && (IsDigit(x[0]) || ((x[0] == '+' || x[0] == '-') && |x| > 1))
    && AllDigits(x[1..])
  }

  /** A non-empty string is all digits exactly when its head is a digit and its tail is all digits. */
  lemma DigitsCons(x: string)
    requires |x| > 0
    ensures AllDigits(x) <==> IsDigit(x[0]) && AllDigits(x[1..])
  {
    assert forall k :: 1 <= k < |x| ==> x[k] == x[1..][k - 1];
  }

  /**
   Integer.parseInt(s): an optional `+` or `-`, then at least one decimal digit,
   denoting a value inside the `int` range; anything else is a NumberFormatException.
   */
  function ParseInt(s: string): (r: Option<int>)
    ensures r.Some? ==> SignedDigits(s) && INT_MIN <= r.value <= INT_MAX
    ensures r.Some? ==> IsDigit(s[|s| - 1])
    ensures r.Some? && AllDigits(s) ==> r.value == DigitsValue(s)
    ensures r.Some? && s[0] == '+' ==> r.value == DigitsValue(s[1..])
    ensures r.Some? && s[0] == '-' ==> r.value == 0 - DigitsValue(s[1..])
    // every sign-and-digits text whose value fits an `int` is accepted
    ensures |s| > 0 && AllDigits(s) && DigitsValue(s) <= INT_MAX ==> r.Some?
    ensures |s| > 1 && s[0] == '+' && AllDigits(s[1..]) && DigitsValue(s[1..]) <= INT_MAX ==> r.Some?
    ensures |s| > 1 && s[0] == '-' && AllDigits(s[1..]) && DigitsValue(s[1..]) <= -INT_MIN ==> r.Some?
  {
    if |s| == 0 then None
    else
      DigitsCons(s);
      var digits := if s[0] == '-' || s[0] == '+' then s[1..] else s;
      if |digits| == 0 || !AllDigits(digits) then None
      else
        var magnitude: int := DigitsValue(digits);
        var v: int := if s[0] == '-' then -magnitude else magnitude;
        if INT_MIN <= v <= INT_MAX then Some(v) else None
  }

  /** Every `int` survives rendering and parsing back. */
  lemma ParseIntToString(n: int)
    requires INT_MIN <= n <= INT_MAX
    ensures ParseInt(IntToString(n)) == Some(n)
  {
    var s := IntToString(n);
    if n < 0 {
      assert s[1..] == NatToDigits(-n);
      NatToDigitsValue(-n);
    } else {
      NatToDigitsValue(n);
    }
  }

  // ---------------------------------------------------------------------------
  // Double.parseDouble

  /** Java's `String.trim`: characters at or below U+0020 are dropped from both ends. */
  function Trim(s: string): (t: string)
    ensures |t| <= |s|
  {
    if |s| > 0 && s[0] <= ' ' then Trim(s[1..])
    else if |s| > 0 && s[|s| - 1] <= ' ' then Trim(s[..|s| - 1])
    else s
  }

  predicate IsExponentMark(c: char) {
    c == 'e' || c == 'E'
  }

  predicate IsPoint(c: char) {
    c == '.'
  }

  predicate IsTypeSuffix(c: char) {
    c == 'f' || c == 'F' || c == 'd' || c == 'D'
  }

  /** The first position of a character satisfying `p`, or `|s|` if there is none. */
  function IndexWhere(s: string, p: char -> bool): (i: nat)
    ensures i <= |s|
    ensures i < |s| ==> p(s[i])
    ensures forall j :: 0 <= j < i ==> !p(s[j])
  {
    if |s| == 0 then 0
    else if p(s[0]) then 0
    else 1 + IndexWhere(s[1..], p)
  }

  /** `x * 10^e`, for an exponent of either sign, one decimal place at a time. */
  function Scale(x: real, e: int): real
    decreases if e < 0 then -e else e
  {
    if e == 0 then x
    else if e > 0 then Scale(x * 10.0, e - 1)
    else Scale(x / 10.0, e + 1)
  }

  /** The value of the digits after a decimal point: `FractionValue("25") == 0.25`. */
  function FractionValue(f: string): real
    requires AllDigits(f)
  {
    if |f| == 0 then 0.0 else ((DigitValue(f[0]) as real) + FractionValue(f[1..])) / 10.0
  }

  /** The value of `intDigits.fracDigits`. */
  function DecimalValue(intDigits: string, fracDigits: string): real
    requires AllDigits(intDigits) && AllDigits(fracDigits)
  {
    DigitsValue(intDigits) as real + FractionValue(fracDigits)
  }

  /** The exponent after `e`/`E`: an optional sign, then at least one digit. */
  function ParseExponent(s: string): (r: Option<int>)
    ensures r.Some? ==> |s| > 0
  {
    var digits := if |s| > 0 && (s[0] == '-' || s[0] == '+') then s[1..] else s;
    if |digits| == 0 || !AllDigits(digits) then None
    else if s[0] == '-' then Some(0 - DigitsValue(digits))
    else Some(DigitsValue(digits))
  }

  /** An unsigned decimal: digits, at most one point, at least one digit, then an optional exponent. */
  function ParseUnsignedDecimal(s: string): Option<real>
  {
    var e := IndexWhere(s, IsExponentMark);
    var mantissa := s[..e];
    var exponent := if e < |s| then ParseExponent(s[e + 1..]) else Some(0);
    var p := IndexWhere(mantissa, IsPoint);
    var intDigits := mantissa[..p];
    var fracDigits := if p < |mantissa| then mantissa[p + 1..] else [];
    if exponent.Some? && AllDigits(intDigits) && AllDigits(fracDigits) && |intDigits| + |fracDigits| > 0
    then Some(Scale(DecimalValue(intDigits, fracDigits), exponent.value))
    else None
  }

  /** Drops one trailing `f`/`F`/`d`/`D` type suffix, if present. */
  function DropTypeSuffix(t: string): string
  {
    if |t| > 0 && IsTypeSuffix(t[|t| - 1]) then t[..|t| - 1] else t
  }

  /** An optional leading sign, then an unsigned decimal. */
  function ParseSignedDecimal(body: string): Option<real>
  {
    var unsigned := if |body| > 0 && (body[0] == '-' || body[0] == '+') then body[1..] else body;
    match ParseUnsignedDecimal(unsigned)
    case None => None
    case Some(v) => Some(if body[0] == '-' then -v else v)
  }

  /** A mantissa: digits and at most one decimal point, with at least one digit. */
  predicate Mantissa(m: string) {
    && (forall k :: 0 <= k < |m| ==> IsDigit(m[k]) || IsPoint(m[k]))
    && (forall a, b :: 0 <= a < b < |m| && IsPoint(m[a]) ==> !IsPoint(m[b]))
    && (exists k :: 0 <= k < |m| && IsDigit(m[k]))
  }

  /** Either nothing, or `e`/`E` followed by an optional sign and at least one digit. */
  predicate ExponentPart(x: string) {
    |x| == 0 || (IsExponentMark(x[0]) && SignedDigits(x[1..]))
  }

  /** Decimal floating-point text: an optional sign, a mantissa, then an optional exponent. */
  predicate DecimalText(t: string) {
    exists i, j ::
      && 0 <= i <= j <= |t|
      && (i == 0 || (i == 1 && (t[0] == '+' || t[0] == '-')))
      && Mantissa(t[i..j])
      && ExponentPart(t[j..])
  }

  /**
   Double.parseDouble(s) for the decimal notation: surrounding blanks are ignored, then an
   optional sign, an unsigned decimal and an optional `f`/`F`/`d`/`D` type suffix.
   */
  function ParseDouble(s: string): (r: Option<real>)
    ensures r.Some? <==> DecimalText(DropTypeSuffix(Trim(s)))
  {
    var t := DropTypeSuffix(Trim(s));
    ParsedIsDecimalText(t);
    DecimalTextIsParsed(t);
    ParseSignedDecimal(t)
  }

  /** `IndexWhere` finds `n` when no earlier character matches and the one at `n`, if any, does. */
  lemma IndexWhereAt(s: string, p: char -> bool, n: nat)
    requires n <= |s|
    requires forall k :: 0 <= k < n ==> !p(s[k])
    requires n < |s| ==> p(s[n])
    ensures IndexWhere(s, p) == n
  {
  }

  /** The exponent parser accepts exactly an optional sign followed by digits. */
  lemma ExponentShape(x: string)
    ensures ParseExponent(x).Some? <==> SignedDigits(x)
  {
    if |x| > 0 {
      DigitsCons(x);
    }
  }

  /** The digits around the first point, as the unsigned-decimal parser splits a mantissa. */
  predicate PointSplit(m: string) {
    var p := IndexWhere(m, IsPoint);
    var intDigits := m[..p];
    var fracDigits := if p < |m| then m[p + 1..] else [];
    AllDigits(intDigits) && AllDigits(fracDigits) && |intDigits| + |fracDigits| > 0
  }

  /** Splitting at the first point succeeds exactly on a mantissa. */
  lemma MantissaSplit(m: string)
    ensures PointSplit(m) <==> Mantissa(m)
  {
    hide PointSplit, Mantissa;
    if PointSplit(m) {
      SplitIsMantissa(m);
    }
    if Mantissa(m) {
      MantissaIsSplit(m);
    }
  }

  /** What the parser's split accepts is a mantissa. */
  lemma SplitIsMantissa(m: string)
    requires PointSplit(m)
    ensures Mantissa(m)
  {
    var p := IndexWhere(m, IsPoint);
    var intDigits := m[..p];
    var fracDigits := if p < |m| then m[p + 1..] else [];
    forall k | 0 <= k < |m|
      ensures IsDigit(m[k]) || IsPoint(m[k])
      ensures k != p ==> IsDigit(m[k])
    {
      if k < p {
        assert m[k] == intDigits[k];
      } else if k > p {
        assert m[k] == fracDigits[k - p - 1];
      }
    }
    if |intDigits| > 0 {
      assert IsDigit(m[0]);
    } else {
      assert IsDigit(m[p + 1]);
    }
  }

  /** A mantissa is accepted by the parser's split at its first point. */
  lemma MantissaIsSplit(m: string)
    requires Mantissa(m)
    ensures PointSplit(m)
  {
    hide Mantissa;
    var p := IndexWhere(m, IsPoint);
    var intDigits := m[..p];
    var fracDigits := if p < |m| then m[p + 1..] else [];
    var d := MantissaDigits(m, p);
    if d < p {
      assert intDigits[d] == m[d];
    } else {
      assert fracDigits[d - p - 1] == m[d];
    }
  }

  /**
   Around the first point `p` of a mantissa (or its end, if it has none) every character
   is a digit, and one of them is at position `d`.
   */
  lemma MantissaDigits(m: string, p: nat) returns (d: nat)
    requires Mantissa(m)
    requires p <= |m| && (p < |m| ==> IsPoint(m[p]))
    requires forall k :: 0 <= k < p ==> !IsPoint(m[k])
    ensures AllDigits(m[..p])
    ensures p < |m| ==> AllDigits(m[p + 1..])
    ensures d < |m| && d != p && IsDigit(m[d])
  {
    d :| 0 <= d < |m| && IsDigit(m[d]);
    assert forall k :: 0 <= k < p ==> m[..p][k] == m[k];
    if p < |m| {
      var f := m[p + 1..];
      assert forall k :: 0 <= k < |f| ==> f[k] == m[p + 1 + k];
    }
  }

  /** A mantissa holds no exponent mark. */
  lemma MantissaUnmarked(m: string)
    requires Mantissa(m)
    ensures forall k :: 0 <= k < |m| ==> !IsExponentMark(m[k])
  {
  }

  /** A non-empty exponent part starts with its mark. */
  lemma ExponentMarked(x: string)
    requires ExponentPart(x) && |x| > 0
    ensures IsExponentMark(x[0]) && SignedDigits(x[1..])
  {
  }

  /** The unsigned-decimal parser accepts exactly a mantissa followed by an optional exponent. */
  lemma UnsignedShape(u: string)
    ensures ParseUnsignedDecimal(u).Some? <==>
              exists j :: 0 <= j <= |u| && Mantissa(u[..j]) && ExponentPart(u[j..])
  {
    hide Mantissa, ExponentPart, ParseUnsignedDecimal;
    if ParseUnsignedDecimal(u).Some? {
      var e := UnsignedSplit(u);
    }
    if exists j :: 0 <= j <= |u| && Mantissa(u[..j]) && ExponentPart(u[j..]) {
      var j :| 0 <= j <= |u| && Mantissa(u[..j]) && ExponentPart(u[j..]);
      UnsignedJoin(u, j);
    }
  }

  /** An accepted unsigned decimal splits into a mantissa and an exponent part. */
  lemma UnsignedSplit(u: string) returns (e: nat)
    requires ParseUnsignedDecimal(u).Some?
    ensures e <= |u| && Mantissa(u[..e]) && ExponentPart(u[e..])
  {
    hide Mantissa, SignedDigits;
    e := IndexWhere(u, IsExponentMark);
    MantissaSplit(u[..e]);
    if e < |u| {
      ExponentShape(u[e + 1..]);
      assert u[e..][1..] == u[e + 1..];
    }
  }

  /** A mantissa followed by an exponent part is an accepted unsigned decimal. */
  lemma UnsignedJoin(u: string, j: nat)
    requires j <= |u| && Mantissa(u[..j]) && ExponentPart(u[j..])
    ensures ParseUnsignedDecimal(u).Some?
  {
    hide Mantissa, ExponentPart, SignedDigits, ParseExponent, DecimalValue, Scale;
    MantissaUnmarked(u[..j]);
    forall k | 0 <= k < j
      ensures !IsExponentMark(u[k])
    {
      assert u[k] == u[..j][k];
    }
    if j < |u| {
      ExponentMarked(u[j..]);
      assert u[j] == u[j..][0];
      ExponentShape(u[j + 1..]);
      assert u[j..][1..] == u[j + 1..];
    }
    IndexWhereAt(u, IsExponentMark, j);
    MantissaSplit(u[..j]);
  }

  /** Every text the signed-decimal parser accepts is decimal floating-point text. */
  lemma ParsedIsDecimalText(t: string)
    ensures ParseSignedDecimal(t).Some? ==> DecimalText(t)
  {
    hide Mantissa, ExponentPart, ParseUnsignedDecimal;
    if ParseSignedDecimal(t).Some? {
      var i := if |t| > 0 && (t[0] == '-' || t[0] == '+') then 1 else 0;
      var u := t[i..];
      UnsignedShape(u);
      var j :| 0 <= j <= |u| && Mantissa(u[..j]) && ExponentPart(u[j..]);
      assert t[i..i + j] == u[..j] && t[i + j..] == u[j..];
    }
  }

  /** Every decimal floating-point text is accepted by the signed-decimal parser. */
  lemma DecimalTextIsParsed(t: string)
    ensures DecimalText(t) ==> ParseSignedDecimal(t).Some?
  {
    hide Mantissa, ExponentPart, ParseSignedDecimal;
    if DecimalText(t) {
      var i, j :|
        && 0 <= i <= j <= |t|
        && (i == 0 || (i == 1 && (t[0] == '+' || t[0] == '-')))
        && Mantissa(t[i..j])
        && ExponentPart(t[j..]);
      SignedJoin(t, i, j);
    }
  }

  /** Cutting a suffix at a later position gives the same pieces as cutting the whole. */
  lemma SliceOfSuffix(t: string, i: nat, j: nat)
    requires i <= j <= |t|
    ensures t[i..][..j - i] == t[i..j] && t[i..][j - i..] == t[j..]
  {
  }

  /** An optional sign, a mantissa and an exponent part make a text the signed-decimal parser accepts. */
  lemma SignedJoin(t: string, i: nat, j: nat)
    requires i <= j <= |t|
    requires i == 0 || (i == 1 && (t[0] == '+' || t[0] == '-'))
    requires Mantissa(t[i..j]) && ExponentPart(t[j..])
    ensures ParseSignedDecimal(t).Some?
  {
    hide ExponentPart, ParseUnsignedDecimal;
    var m := t[i..j];
    var d :| 0 <= d < |m| && IsDigit(m[d]);
    if i == 0 {
      assert t[0] == m[0];
    }
    var u := t[i..];
    SliceOfSuffix(t, i, j);
    UnsignedJoin(u, j - i);
  }

  /** `a` split at the `k`-th decimal place into a whole part and `k` fraction digits' worth. */
  function SplitAt(a: nat, k: nat): (r: (nat, nat))
    ensures a == r.0 * Pow10(k) + r.1
    ensures r.1 < Pow10(k)
  {
    var p := Pow10(k);
    DivMod(a, p);
    (a / p, a % p)
  }

  /** Euclidean division: quotient times divisor plus remainder, the remainder below the divisor. */
  lemma DivMod(a: nat, p: nat)
    requires p > 0
    ensures 0 <= a / p && 0 <= a % p < p
    ensures a == (a / p) * p + a % p
  {
  }

  /**
   The plain decimal rendering of `units / 10^scale` with exactly `scale` fraction
   digits, e.g. `FormatFixed(205, 1) == "20.5"`.
   */
  function FormatFixed(units: int, scale: nat): string
  {
    var parts := SplitAt(if units < 0 then -units else units, scale);
    (if units < 0 then "-" else "") + NatToDigits(parts.0) + "." + PadDigits(parts.1, scale)
  }

  /** A string with no blank at either end is its own trim. */
  lemma TrimUnblank(s: string)
    requires |s| > 0 && s[0] > ' ' && s[|s| - 1] > ' '
    ensures Trim(s) == s
  {
  }

  /** A whole part and a remainder below the divisor give back the exact real quotient. */
  lemma QuotientParts(a: nat, whole: nat, frac: nat, p: nat)
    requires p >= 1
    requires a == whole * p + frac
    ensures (whole as real) + (frac as real) / (p as real) == (a as real) / (p as real)
  {
    assert (a as real) == (whole as real) * (p as real) + (frac as real);
  }

  /** Digits, a point and digits: the value of the whole part plus the scaled fraction. */
  lemma ParsePointed(whole: string, frac: string)
    requires |whole| > 0 && AllDigits(whole) && AllDigits(frac)
    ensures ParseUnsignedDecimal(whole + "." + frac) == Some(DecimalValue(whole, frac))
  {
    var u := whole + "." + frac;
    forall j | 0 <= j < |u|
      ensures !IsExponentMark(u[j])
    {
      if j < |whole| {
        assert u[j] == whole[j];
      } else if j > |whole| {
        assert u[j] == frac[j - |whole| - 1];
      }
    }
    var e := IndexWhere(u, IsExponentMark);
    assert e == |u|;
    assert u[..e] == u;
    forall j | 0 <= j < |whole|
      ensures !IsPoint(u[j])
    {
      assert u[j] == whole[j];
    }
    assert u[|whole|] == '.';
    var p := IndexWhere(u, IsPoint);
    assert p == |whole|;
    assert u[..p] == whole;
    assert u[p + 1..] == frac;
    assert Scale(DecimalValue(whole, frac), 0) == DecimalValue(whole, frac);
  }

  /** A bare digit string is an unsigned decimal denoting its integer value. */
  lemma ParseDigitsOnly(digits: string)
    requires |digits| > 0 && AllDigits(digits)
    ensures ParseUnsignedDecimal(digits) == Some(DigitsValue(digits) as real)
  {
    var e := IndexWhere(digits, IsExponentMark);
    assert e == |digits|;
    assert digits[..e] == digits;
    var p := IndexWhere(digits, IsPoint);
    assert p == |digits|;
    assert digits[..p] == digits;
    assert DecimalValue(digits, []) == DigitsValue(digits) as real;
  }

  /** Without blanks or a type suffix at the ends, only the sign separates `ParseDouble` from `ParseUnsignedDecimal`. */
  lemma ParseDoubleSign(sign: string, u: string)
    requires sign == "" || sign == "-" || sign == "+"
    requires |u| > 0 && IsDigit(u[0]) && (IsDigit(u[|u| - 1]) || u[|u| - 1] == '.')
    ensures ParseUnsignedDecimal(u).None? ==> ParseDouble(sign + u).None?
    ensures ParseUnsignedDecimal(u).Some? ==>
              ParseDouble(sign + u)
              == Some(if sign == "-" then -ParseUnsignedDecimal(u).value else ParseUnsignedDecimal(u).value)
  {
    hide Trim, ParseUnsignedDecimal;
    var s := sign + u;
    assert s[|s| - 1] == u[|u| - 1];
    TrimUnblank(s);
    assert DropTypeSuffix(s) == s;
    assert ParseDouble(s) == ParseSignedDecimal(s);
    if sign == "" {
      assert s == u;
    } else {
      assert s[1..] == u;
      assert s[0] == sign[0];
    }
  }

  /** One more fraction digit adds its value scaled by its position. */
  lemma {:induction false} FractionValueSnoc(f: string, d: char)
    requires AllDigits(f) && IsDigit(d)
    ensures FractionValue(f + [d]) == FractionValue(f) + (DigitValue(d) as real) / (Pow10(|f| + 1) as real)
  {
    var g := f + [d];
    if |f| > 0 {
      assert g[1..] == f[1..] + [d];
      FractionValueSnoc(f[1..], d);
      var p := Pow10(|f|) as real;
      var dv := DigitValue(d) as real;
      assert FractionValue(g) == ((DigitValue(f[0]) as real) + FractionValue(f[1..]) + dv / p) / 10.0;
      TenthOfQuotient(dv, p);
    } else {
      assert g[1..] == [];
    }
  }

  lemma TenthOfQuotient(x: real, p: real)
    requires p >= 1.0
    ensures (x / p) / 10.0 == x / (10.0 * p)
  {
  }

  /** The `w` padded digits of `n` below `10^w`, read as a fraction, are `n / 10^w`. */
  lemma {:induction false} FractionOfPadded(n: nat, w: nat)
    requires n < Pow10(w)
    ensures FractionValue(PadDigits(n, w)) == (n as real) / (Pow10(w) as real)
  {
    if w > 0 {
      var s := PadDigits(n, w);
      assert s == PadDigits(n / 10, w - 1) + [DigitChar(n % 10)];
      FractionOfPadded(n / 10, w - 1);
      FractionValueSnoc(PadDigits(n / 10, w - 1), DigitChar(n % 10));
      QuotientParts(n, n / 10, n % 10, 10);
      var p := Pow10(w - 1) as real;
      assert Pow10(w) as real == 10.0 * p;
      ShiftQuotient((n / 10) as real, (n % 10) as real, p);
    }
  }

  /** `q / p + r / (10 p) == (10 q + r) / (10 p)`. */
  lemma ShiftQuotient(q: real, r: real, p: real)
    requires p >= 1.0
    ensures q / p + r / (10.0 * p) == (10.0 * q + r) / (10.0 * p)
  {
  }

  /** The digits of the fixed-point rendering denote `|units| / 10^scale`. */
  lemma FixedDigitsValue(magnitude: nat, scale: nat)
    ensures DecimalValue(NatToDigits(SplitAt(magnitude, scale).0), PadDigits(SplitAt(magnitude, scale).1, scale))
         == (magnitude as real) / (Pow10(scale) as real)
  {
    var parts := SplitAt(magnitude, scale);
    NatToDigitsValue(parts.0);
    FractionOfPadded(parts.1, scale);
    QuotientParts(magnitude, parts.0, parts.1, Pow10(scale));
  }

  /** A signed pointed decimal parses to the signed value of its digits. */
  lemma ParseSignedPointed(sign: string, whole: string, frac: string)
    requires sign == "" || sign == "-"
    requires |whole| > 0 && AllDigits(whole) && AllDigits(frac)
    ensures ParseDouble(sign + (whole + "." + frac))
         == Some(if sign == "-" then -DecimalValue(whole, frac) else DecimalValue(whole, frac))
  {
    hide ParseDouble, ParseUnsignedDecimal;
    var u := whole + "." + frac;
    ParsePointed(whole, frac);
    assert u[0] == whole[0];
    assert u[|u| - 1] == if |frac| == 0 then '.' else frac[|frac| - 1];
    ParseDoubleSign(sign, u);
  }

  /** Parsing the fixed-point rendering gives back `units / 10^scale`. */
  lemma ParseFormatFixed(units: int, scale: nat)
    ensures ParseDouble(FormatFixed(units, scale)) == Some((units as real) / (Pow10(scale) as real))
  {
    hide ParseDouble, DecimalText, DecimalValue, NatToDigits, PadDigits, Pow10, SplitAt;
    var magnitude: nat := if units < 0 then -units else units;
    var parts := SplitAt(magnitude, scale);
    var whole, frac := NatToDigits(parts.0), PadDigits(parts.1, scale);
    var sign := if units < 0 then "-" else "";
    assert FormatFixed(units, scale) == sign + (whole + "." + frac);
    ParseSignedPointed(sign, whole, frac);
    FixedDigitsValue(magnitude, scale);
    if units < 0 {
      NegatedQuotient(units as real, Pow10(scale) as real);
    }
  }

  lemma NegatedQuotient(x: real, p: real)
    requires p > 0.0
    ensures -((-x) / p) == x / p
  {
  }

  /** Every text `Integer.parseInt` accepts is accepted by `Double.parseDouble` with the same value. */
  lemma ParseIntThenDouble(s: string)
    requires ParseInt(s).Some?
    ensures ParseDouble(s) == Some(ParseInt(s).value as real)
  {
    hide ParseDouble, DecimalText, ParseUnsignedDecimal, ParseInt, DigitsValue;
    DigitsCons(s);
    var sign := if s[0] == '-' || s[0] == '+' then [s[0]] else "";
    var digits := s[|sign|..];
    assert s == sign + digits;
    ParseDigitsOnly(digits);
    ParseDoubleSign(sign, digits);
  }
}
