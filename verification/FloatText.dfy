/**
 What a floating conversion should spell, stated by decimal place and not by the
 pieces `_Genld` builds it from, and what that text denotes. Conversions are those of
 section 7.19.6.1 of ISO/IEC 9899:1999.
 */
module FloatText {
  import opened Common
  import opened Decimal
  import opened FloatReader
  import opened Rounding

  // ---- Decimal places

  /** The digit of weight `10^w` in the number whose first digit `d[0]` has weight `10^xexp`. */
  function DigitAt(d: seq<char>, xexp: int, w: int): char {
    if 0 <= xexp - w < |d| then d[xexp - w] else '0'
  }

  /** `n` digits, from weight `w` downwards. */
  function Places(d: seq<char>, xexp: int, w: int, n: nat): (s: seq<char>)
    ensures |s| == n && forall i :: 0 <= i < n ==> s[i] == DigitAt(d, xexp, w - i)
  {
    seq(n, i => DigitAt(d, xexp, w - i))
  }

  lemma PlacesAreDigits(d: seq<char>, xexp: int, w: int, n: nat)
    requires AllDigits(d)
    ensures AllDigits(Places(d, xexp, w, n))
  {
  }

  function Top(xexp: int): nat {
    if xexp < 0 then 0 else xexp
  }

  function Point(prec: nat, alt: bool): seq<char> {
    if prec > 0 || alt then ['.'] else []
  }

  /** The 'f' style: all places down to the units, then exactly `prec` more. */
  function FixedText(d: seq<char>, xexp: int, prec: nat, alt: bool): seq<char> {
    Places(d, xexp, Top(xexp), Top(xexp) + 1) + Point(prec, alt) + Places(d, xexp, -1, prec)
  }

  /** All digits of the 'f' style without the point. */
  function FixedDigits(d: seq<char>, xexp: int, prec: nat): seq<char> {
    Places(d, xexp, Top(xexp), Top(xexp) + 1 + prec)
  }

  lemma PlacesSplit(d: seq<char>, xexp: int, w: int, a: nat, b: nat)
    ensures Places(d, xexp, w, a + b) == Places(d, xexp, w, a) + Places(d, xexp, w - a, b)
  {
  }

  lemma FixedDigitsOf(d: seq<char>, xexp: int, prec: nat)
    ensures FixedDigits(d, xexp, prec)
         == Places(d, xexp, Top(xexp), Top(xexp) + 1) + Places(d, xexp, -1, prec)
  {
    PlacesSplit(d, xexp, Top(xexp), Top(xexp) + 1, prec);
  }

  /** The digits of an exponent before its last two, if it has any. */
  function HundredsDigits(e: nat): seq<char>
    requires e < 10000
  {
    if e >= 1000 then [DigitChar(e / 1000), DigitChar(e / 100 % 10)]
    else if e >= 100 then [DigitChar(e / 100)]
    else []
  }

  /** The exponent of the 'e' style: at least two digits. */
  function ExponentDigits(e: nat): seq<char>
    requires e < 10000
  {
    HundredsDigits(e) + [DigitChar(e / 10 % 10), DigitChar(e % 10)]
  }

  function DigitChar(v: nat): (c: char)
    requires v < 10
    ensures IsDigit(c) && DigitValue(c) == v
  {
    '0' + v as char
  }

  /** All digits of the 'e' style's mantissa, without the point. */
  function Mantissa(d: seq<char>, prec: nat): seq<char> {
    Places(d, 0, 0, 1 + prec)
  }

  /** The exponent letter, the sign and the digits. */
  function Exponent(code: char, xexp: int): seq<char>
    requires -10000 < xexp < 10000
  {
    [code, if xexp >= 0 then '+' else '-'] + ExponentDigits(if xexp >= 0 then xexp else -xexp)
  }

  /** The 'e' style: one digit, `prec` more, and the exponent with its sign. */
  function ExpText(d: seq<char>, xexp: int, prec: nat, alt: bool, code: char): seq<char>
    requires -10000 < xexp < 10000
  {
    Mantissa(d, prec)[..1] + Point(prec, alt) + Mantissa(d, prec)[1..]
    + Exponent(code, xexp)
  }

  /** The four decimal places of an exponent, and how division reaches them. */
  lemma ExponentPlaces(e: nat)
    requires e < 10000
    ensures e / 1000 < 10 && e % 1000 / 100 == e / 100 % 10 && e % 1000 % 100 == e % 100
    ensures e % 100 / 10 == e / 10 % 10 && e % 100 % 10 == e % 10
    ensures e / 100 == e / 1000 * 10 + e / 100 % 10
    ensures e == (e / 100 * 10 + e / 10 % 10) * 10 + e % 10
    ensures e < 1000 ==> e % 1000 == e
    ensures e < 100 ==> e % 100 == e && e / 100 == 0
  {
    var a, r := e / 1000, e % 1000;
    var b, q := r / 100, r % 100;
    var c, z := q / 10, q % 10;
    assert e == 100 * (10 * a + b) + q && e / 100 == 10 * a + b;
    assert e == 10 * (100 * a + 10 * b + c) + z && e / 10 == 100 * a + 10 * b + c;
  }

  lemma HundredsValue(e: nat)
    requires e < 10000
    ensures AllDigits(HundredsDigits(e)) && Val(HundredsDigits(e)) == e / 100
  {
    ExponentPlaces(e);
    if e >= 1000 {
      ValPush([], DigitChar(e / 1000));
      ValPush([DigitChar(e / 1000)], DigitChar(e / 100 % 10));
      assert [] + [DigitChar(e / 1000)] == [DigitChar(e / 1000)];
      assert [DigitChar(e / 1000)] + [DigitChar(e / 100 % 10)] == HundredsDigits(e);
    } else if e >= 100 {
      ValPush([], DigitChar(e / 100));
      assert [] + [DigitChar(e / 100)] == HundredsDigits(e);
    }
  }

  /** The exponent digits read back as the exponent. */
  lemma ExponentParsesBack(e: nat)
    requires e < 10000
    ensures AllDigits(ExponentDigits(e)) && |ExponentDigits(e)| >= 2 && Val(ExponentDigits(e)) == e
  {
    var h, c, z := HundredsDigits(e), DigitChar(e / 10 % 10), DigitChar(e % 10);
    ExponentPlaces(e);
    HundredsValue(e);
    hide HundredsDigits, Val, DigitChar;
    assert ExponentDigits(e) == (h + [c]) + [z];
    ValPush(h, c);
    ValPush(h + [c], z);
  }

  // ---- What the text denotes

  /** Places from `xexp` or above are the digits themselves, padded with zeros and cut. */
  lemma PlacesPadded(d: seq<char>, xexp: int, w: int, n: nat)
    requires w >= xexp
    ensures n >= w - xexp + |d| ==> Places(d, xexp, w, n) == Zeros(w - xexp) + d + Zeros(n - (w - xexp) - |d|)
    ensures n <= w - xexp + |d| ==> Places(d, xexp, w, n) == (Zeros(w - xexp) + d)[..n]
  {
  }

  lemma PowZero()
    ensures Pow(10, 0) == 1
  {
  }

  /**
   Reading `n` places from weight `w` as a number gives the input scaled to the last
   place shown: exactly when nothing is cut off, else rounded down.
   */
  lemma PlacesValue(d: seq<char>, xexp: int, w: int, n: nat)
    requires AllDigits(d) && w >= xexp
    ensures AllDigits(Places(d, xexp, w, n))
    ensures var shift := n - (w - xexp) - |d|;
      Val(Places(d, xexp, w, n)) == if shift >= 0 then Val(d) * Pow(10, shift) else Val(d) / Pow(10, -shift)
  {
    hide Val, Pow, Places, Zeros;
    var shift := n - (w - xexp) - |d|;
    PlacesPadded(d, xexp, w, n);
    PlacesAreDigits(d, xexp, w, n);
    if shift >= 0 {
      ValPadded(w - xexp, d, shift);
    } else {
      ValPadded(w - xexp, d, 0);
      assert Zeros(w - xexp) + d + Zeros(0) == Zeros(w - xexp) + d;
      assert Pow(10, 0) == 1 by { PowZero(); }
      ValTake(Zeros(w - xexp) + d, n);
    }
  }

  /**
   The 'f' text: no superfluous leading zero, exactly `prec` fraction digits, and as a
   whole number of units of `10^-prec` it is the input, cut off after the last place.
   */
  lemma FixedDenotes(d: seq<char>, xexp: int, prec: nat)
    requires AllDigits(d) && d != []
    ensures AllDigits(FixedDigits(d, xexp, prec))
    ensures var shift := xexp + 1 - |d| + prec;
      Val(FixedDigits(d, xexp, prec)) == if shift >= 0 then Val(d) * Pow(10, shift) else Val(d) / Pow(10, -shift)
    ensures d[0] != '0' && Top(xexp) > 0 ==> FixedDigits(d, xexp, prec)[0] != '0'
  {
    hide Val, Pow;
    PlacesValue(d, xexp, Top(xexp), Top(xexp) + 1 + prec);
  }

  /** The 'e' text: its `prec + 1` digits are the input's leading digits. */
  lemma ExpDenotes(d: seq<char>, prec: nat)
    requires AllDigits(d) && d != []
    ensures AllDigits(Mantissa(d, prec)) && Mantissa(d, prec)[0] == d[0]
    ensures var shift := prec + 1 - |d|;
      Val(Mantissa(d, prec)) == if shift >= 0 then Val(d) * Pow(10, shift) else Val(d) / Pow(10, -shift)
  {
    hide Val, Pow;
    PlacesValue(d, 0, 0, 1 + prec);
  }

  // ---- The conversions on a digit buffer

  predicate IsG(code: char) {
    code == 'g' || code == 'G'
  }

  predicate IsE(code: char) {
    code == 'e' || code == 'E'
  }

  predicate IsFloatCode(code: char) {
    code == 'f' || IsE(code) || IsG(code)
  }

  /** 'g' takes the fixed style for exponents in this range. */
  predicate FixedStyle(code: char, xexp: int, prec: nat) {
    code == 'f' || (IsG(code) && -4 <= xexp < prec)
  }

  /** Fraction digits after 'g' has dropped trailing zeros. */
  function FractionDigits(code: char, nsig: nat, xexp: int, prec: nat, alt: bool): nat {
    if !IsG(code) then prec
    else if FixedStyle(code, xexp, prec) then Max(0, (if alt then prec else Min(prec, nsig)) - (xexp + 1))
    else Max(0, Min(prec, nsig) - 1)
  }

  function ExponentLetter(code: char): char {
    if code == 'g' then 'e' else if code == 'G' then 'E' else code
  }

  /** The text of `nsig` rounded digits. */
  function BodyText(code: char, d: seq<char>, xexp: int, prec: nat, alt: bool): seq<char>
    requires -10000 < xexp < 10000
  {
    var fraction := FractionDigits(code, |d|, xexp, prec, alt);
    if FixedStyle(code, xexp, prec) then FixedText(d, xexp, fraction, alt)
    else ExpText(d, xexp, fraction, alt, ExponentLetter(code))
  }

  /** The significant digits a conversion asks for. */
  function WantedDigits(code: char, xexp: int, prec: nat): int {
    prec + if code == 'f' then xexp + 1 else if IsE(code) then 1 else 0
  }

  /** The digits and exponent that are laid out, from a buffer whose first digit is not zero. */
  datatype Shown = Shown(digits: seq<char>, xexp: int)

  function Significant(code: char, d: seq<char>, xexp: int, prec: nat): Shown
    requires AllDigits(d) && d != []
  {
    var nsig := Min(WantedDigits(code, xexp, prec), |d|);
    if nsig > 0 then Shown(Round(d, nsig).digits, xexp + Round(d, nsig).carry) else Shown(['0'], xexp)
  }

  // ---- Correct rounding

  /** Rounding keeps the value when nothing is cut, and otherwise cuts exactly the rounded-off places. */
  lemma RoundedPlaces(d: seq<char>, xexp: int, nsig: nat, prec: nat)
    requires AllDigits(d) && d != [] && d[0] != '0' && 0 < nsig <= |d|
    requires nsig == |d| ==> xexp + 1 + prec >= nsig
    requires nsig < |d| ==> xexp + 1 + prec == nsig
    ensures var r := Round(d, nsig); var shift := xexp + 1 - |d| + prec;
      && AllDigits(r.digits) && r.digits != []
      && AllDigits(FixedDigits(r.digits, xexp + r.carry, prec))
      && var t := Val(FixedDigits(r.digits, xexp + r.carry, prec));
      if shift >= 0 then t == Val(d) * Pow(10, shift) else Nearest(t, Val(d), -shift)
  {
    hide Round, Val, Pow, FixedDigits, Nearest;
    var r := Round(d, nsig);
    RoundIsRounding(d, nsig);
    var e, shift := nsig + r.carry - |r.digits|, xexp + 1 - |d| + prec;
    FixedDenotes(r.digits, xexp + r.carry, prec);
    if nsig == |d| {
      NearestExact(Val(r.digits) * Pow(10, e), Val(d));
      PowAdd(10, e, shift);
      MulAssoc(Val(r.digits), Pow(10, e), Pow(10, shift));
    }
  }

  /** With nothing cut off, the nearest integer is the number. */
  lemma NearestExact(q: nat, v: nat)
    requires Nearest(q, v, 0)
    ensures q == v
  {
  }

  /** The text of 'f' for a buffer of digits, as a number of units of `10^-prec`. */
  function PrintedFixed(d: seq<char>, xexp: int, prec: nat): nat
    requires AllDigits(d) && d != [] && d[0] != '0'
  {
    var s := Significant('f', d, xexp, prec);
    SignificantAreDigits('f', d, xexp, prec);
    PlacesAreDigits(s.digits, s.xexp, Top(s.xexp), Top(s.xexp) + 1 + prec);
    Val(FixedDigits(s.digits, s.xexp, prec))
  }

  lemma SignificantAreDigits(code: char, d: seq<char>, xexp: int, prec: nat)
    requires AllDigits(d) && d != [] && d[0] != '0'
    ensures var s := Significant(code, d, xexp, prec);
      AllDigits(s.digits) && 0 < |s.digits| <= |d| && xexp <= s.xexp <= xexp + 1
  {
    hide Round;
    var nsig := Min(WantedDigits(code, xexp, prec), |d|);
    if nsig > 0 {
      RoundIsRounding(d, nsig);
      RoundShortens(d, nsig);
      CarryIsSmall(d, nsig);
    }
  }

  lemma RoundShortens(d: seq<char>, nsig: nat)
    requires AllDigits(d) && 0 < nsig <= |d|
    ensures |Round(d, nsig).digits| <= nsig
  {
  }

  /** What 'f' should print: the input in units of `10^-prec`, halves going up. */
  ghost predicate CorrectlyRounded(t: nat, d: seq<char>, xexp: int, prec: nat)
    requires AllDigits(d)
  {
    var shift := xexp + 1 - |d| + prec;
    if shift >= 0 then t == Val(d) * Pow(10, shift) else Nearest(t, Val(d), -shift)
  }

  /** Below half a unit in the last place, 'f' prints zero, and rightly so unless the first digit is 5 or more. */
  lemma PrintedZero(d: seq<char>, xexp: int, prec: nat)
    requires AllDigits(d) && d != [] && d[0] != '0' && WantedDigits('f', xexp, prec) <= 0
    ensures PrintedFixed(d, xexp, prec) == 0
    ensures CorrectlyRounded(0, d, xexp, prec) <==> (WantedDigits('f', xexp, prec) < 0 || d[0] < '5')
  {
    FixedDenotes(['0'], xexp, prec);
    assert ['0'][..0] == [] && Val(['0']) == 0;
    var k := -(xexp + 1 - |d| + prec);
    assert PrintedFixed(d, xexp, prec) == 0 by {
      ZeroPlaces(xexp, prec);
    }
    ValBound(d);
    LeadingDigit(d);
    hide Val;
    if k > |d| {
      assert Pow(10, k) == Pow(10, k - 1) * 10;
      PowMonotone(|d|, k - 1);
    }
  }

  lemma ZeroPlaces(xexp: int, prec: nat)
    ensures FixedDigits(['0'], xexp, prec) == Zeros(Top(xexp) + 1 + prec)
    ensures Val(FixedDigits(['0'], xexp, prec)) == 0
  {
    ValZeros(Top(xexp) + 1 + prec);
  }

  lemma {:induction false} PowMonotone(a: nat, b: nat)
    requires a <= b
    ensures Pow(10, a) <= Pow(10, b)
  {
    if a >= b {
    } else {
      PowMonotone(a, b - 1);
    }
  }

  /**
   'f' prints its argument rounded half up to `prec` places, for every digit buffer,
   exponent and precision, except when the first digit stands just beyond the last
   place and is 5 or more: then it prints 0 where 1 unit in the last place is due.
   */
  lemma FixedRoundsIff(d: seq<char>, xexp: int, prec: nat)
    requires AllDigits(d) && d != [] && d[0] != '0'
    ensures CorrectlyRounded(PrintedFixed(d, xexp, prec), d, xexp, prec)
       <==> !(xexp + 1 + prec == 0 && d[0] >= '5')
  {
    var wanted := WantedDigits('f', xexp, prec);
    if wanted <= 0 {
      hide PrintedFixed, CorrectlyRounded;
      PrintedZero(d, xexp, prec);
    } else {
      hide Round, Nearest, Val, Pow, FixedDigits;
      RoundedPlaces(d, xexp, Min(wanted, |d|), prec);
    }
  }

  /** A concrete failure: 0.6 printed with no fraction digits gives 0. */
  lemma SixTenthsPrintsZero()
    ensures PrintedFixed(['6'], -1, 0) == 0
    ensures !CorrectlyRounded(0, ['6'], -1, 0)
  {
    PrintedZero(['6'], -1, 0);
  }

  /** Without '#', whatever fraction 'g' shows ends in a digit that is not zero. */
  lemma GShowsNoTrailingZero(code: char, d: seq<char>, xexp: int, prec: nat)
    requires IsG(code) && prec > 0 && AllDigits(d) && d != [] && d[0] != '0'
    ensures var s := Significant(code, d, xexp, prec);
      var fraction := FractionDigits(code, |s.digits|, s.xexp, prec, false);
      var places := if FixedStyle(code, s.xexp, prec) then Places(s.digits, s.xexp, -1, fraction)
                    else Places(s.digits, 0, -1, fraction);
      fraction > 0 ==> places[fraction - 1] != '0'
  {
    SignificantForG(code, d, xexp, prec);
    hide Significant, Places, FractionDigits, FixedStyle;
    var s := Significant(code, d, xexp, prec);
    LastPlace(code, s.digits, s.xexp, prec);
  }

  /** The digits 'g' shows: at most as many as the precision, with no zero at either end. */
  lemma SignificantForG(code: char, d: seq<char>, xexp: int, prec: nat)
    requires IsG(code) && prec > 0 && AllDigits(d) && d != [] && d[0] != '0'
    ensures var s := Significant(code, d, xexp, prec);
      && AllDigits(s.digits) && 0 < |s.digits| <= prec && s.digits[0] != '0' && s.digits[|s.digits| - 1] != '0'
      && xexp <= s.xexp <= xexp + 1 && s.digits == Round(d, Min(prec, |d|)).digits
  {
    hide Round, Val, Pow, Nearest;
    var nsig := Min(prec, |d|);
    RoundIsRounding(d, nsig);
    RoundShortens(d, nsig);
    CarryIsSmall(d, nsig);
  }

  /** The last fraction digit that 'g' shows is the last digit it was given. */
  lemma LastPlace(code: char, d: seq<char>, xexp: int, prec: nat)
    requires IsG(code) && 0 < |d| <= prec
    ensures var fraction := FractionDigits(code, |d|, xexp, prec, false);
      var places := if FixedStyle(code, xexp, prec) then Places(d, xexp, -1, fraction) else Places(d, 0, -1, fraction);
      fraction > 0 ==> places[fraction - 1] == d[|d| - 1]
  {
  }

  // ---- Significant digits of a text

  /** The digits at the front of a text, a point between them not counted. */
  function DigitRun(t: seq<char>): nat {
    if t == [] || !(IsDigit(t[0]) || t[0] == '.') then 0
    else DigitRun(t[1..]) + if t[0] == '.' then 0 else 1
  }

  /** The significant digits a text shows: from the first that is not zero up to the exponent, if there is one. */
  function ShownDigits(t: seq<char>): nat {
    if t == [] then 0 else if t[0] == '0' || t[0] == '.' then ShownDigits(t[1..]) else DigitRun(t)
  }

  lemma {:induction false} DigitRunAppend(a: seq<char>, b: seq<char>)
    requires AllDigits(a)
    ensures DigitRun(a + b) == |a| + DigitRun(b)
  {
    if a == [] {
      assert a + b == b;
    } else {
      DigitRunAppend(a[1..], b);
      assert (a + b)[1..] == a[1..] + b;
    }
  }

  lemma DigitRunPoint(b: seq<char>)
    ensures DigitRun(['.'] + b) == DigitRun(b)
  {
    assert (['.'] + b)[1..] == b;
  }

  lemma {:induction false} ShownAfterZeros(n: nat, t: seq<char>)
    ensures ShownDigits(Zeros(n) + t) == ShownDigits(t)
  {
    if n == 0 {
      assert Zeros(n) + t == t;
    } else {
      ShownAfterZeros(n - 1, t);
      assert (Zeros(n) + t)[1..] == Zeros(n - 1) + t;
    }
  }

  /** Digits on both sides of a point, the first of them not zero, before the end or an exponent. */
  lemma ShownAroundPoint(whole: seq<char>, fraction: seq<char>, tail: seq<char>)
    requires AllDigits(whole) && AllDigits(fraction) && DigitRun(tail) == 0
    requires whole != [] && whole[0] != '0'
    ensures ShownDigits(whole + ['.'] + fraction + tail) == |whole| + |fraction|
  {
    var behind := ['.'] + (fraction + tail);
    var t := whole + behind;
    Regroup(whole + ['.'], fraction, tail);
    Regroup(whole, ['.'], fraction + tail);
    assert t[0] == whole[0];
    assert ShownDigits(t) == DigitRun(t);
    hide DigitRun, ShownDigits;
    DigitRunAppend(fraction, tail);
    DigitRunPoint(fraction + tail);
    DigitRunAppend(whole, behind);
  }

  /** A fraction below one: the zeros in front of it do not count. */
  lemma ShownBelowOne(z: nat, digits: seq<char>)
    requires AllDigits(digits) && digits != [] && digits[0] != '0'
    ensures ShownDigits(['0'] + ['.'] + (Zeros(z) + digits)) == |digits|
  {
    var t := ['0'] + ['.'] + (Zeros(z) + digits);
    assert t[1..] == ['.'] + (Zeros(z) + digits) && t[1..][1..] == Zeros(z) + digits;
    ShownAfterZeros(z, digits);
    assert digits + [] == digits;
    DigitRunAppend(digits, []);
  }

  /** The fixed style with '#' shows all places from the first digit to the last of the fraction. */
  lemma ShownFixed(d: seq<char>, xexp: int, fraction: nat)
    requires AllDigits(d) && d != [] && d[0] != '0' && xexp + 1 + fraction > 0
    ensures ShownDigits(FixedText(d, xexp, fraction, true)) == xexp + 1 + fraction
  {
    var whole, behind := Places(d, xexp, Top(xexp), Top(xexp) + 1), Places(d, xexp, -1, fraction);
    PlacesAreDigits(d, xexp, Top(xexp), Top(xexp) + 1);
    PlacesAreDigits(d, xexp, -1, fraction);
    if xexp >= 0 {
      assert whole + ['.'] + behind == whole + ['.'] + behind + [];
      ShownAroundPoint(whole, behind, []);
    } else {
      var z := -1 - xexp;
      var digits := Places(d, xexp, xexp, fraction - z);
      PlacesAreDigits(d, xexp, xexp, fraction - z);
      assert whole == ['0'] && behind == Zeros(z) + digits;
      ShownBelowOne(z, digits);
    }
  }

  /** The exponent style with '#' shows the mantissa. */
  lemma ShownExp(d: seq<char>, xexp: int, fraction: nat, code: char)
    requires AllDigits(d) && d != [] && d[0] != '0' && IsE(code) && -10000 < xexp < 10000
    ensures ShownDigits(ExpText(d, xexp, fraction, true, code)) == 1 + fraction
  {
    ExpDenotes(d, fraction);
    hide ExponentDigits, Val;
    var m := Mantissa(d, fraction);
    ShownAroundPoint(m[..1], m[1..], Exponent(code, xexp));
  }

  /** Rounding to `prec` digits leaves as many, if none of them is stripped. */
  lemma NoneStrippedIff(d: seq<char>, prec: nat)
    requires AllDigits(d) && d != [] && d[0] != '0' && 0 < prec
    ensures |Round(d, Min(prec, |d|)).digits| == prec
       <==> prec == 1 || (prec <= |d| && d[prec - 1] != if RoundsUp(d, prec) then '9' else '0')
  {
    if prec <= |d| {
      assert d[..prec][prec - 1] == d[prec - 1] && d[..prec][0] == d[0];
    } else {
      RoundShortens(d, |d|);
    }
  }

  /**
   '#' asks 'g' to keep trailing zeros up to the precision. Of the text printed this holds
   if and only if the style is fixed or the last of the digits that the precision asks for
   is there and not stripped as a trailing zero or nine; a single digit always stays.
   */
  lemma AlternateGKeepsZerosIff(code: char, d: seq<char>, xexp: int, prec: nat)
    requires IsG(code) && prec > 0 && AllDigits(d) && d != [] && d[0] != '0' && -9999 < xexp < 9999
    ensures var s := Significant(code, d, xexp, prec);
      && -10000 < s.xexp < 10000
      && (ShownDigits(BodyText(code, s.digits, s.xexp, prec, true)) == prec <==>
          FixedStyle(code, s.xexp, prec) || prec == 1
          || (prec <= |d| && d[prec - 1] != if RoundsUp(d, prec) then '9' else '0'))
  {
    SignificantForG(code, d, xexp, prec);
    NoneStrippedIff(d, prec);
    var s := Significant(code, d, xexp, prec);
    hide Round, RoundsUp, Significant;
    ShownByAlternateG(code, s.digits, s.xexp, prec);
  }

  /** With '#', 'g' shows all digits of the precision in the fixed style and the digits given in the other. */
  lemma ShownByAlternateG(code: char, d: seq<char>, xexp: int, prec: nat)
    requires IsG(code) && AllDigits(d) && 0 < |d| <= prec && d[0] != '0' && -10000 < xexp < 10000
    ensures ShownDigits(BodyText(code, d, xexp, prec, true)) == if FixedStyle(code, xexp, prec) then prec else |d|
  {
    hide FixedText, ExpText, ShownDigits;
    if FixedStyle(code, xexp, prec) {
      ShownFixed(d, xexp, prec - 1 - xexp);
    } else {
      ShownExp(d, xexp, |d| - 1, ExponentLetter(code));
    }
  }

  /** A concrete failure: 1e10 with "%#g" shows one digit where six are asked for. */
  lemma AlternateGDropsZeros()
    ensures Significant('g', ['1'], 10, 6) == Shown(['1'], 10)
    ensures BodyText('g', ['1'], 10, 6, true) == "1.e+10"
    ensures ShownDigits("1.e+10") == 1
  {
    assert Round(['1'], 1).digits == ['1'] by {
      assert ['1'][..1] == ['1'];
    }
    assert Mantissa(['1'], 0) == ['1'];
    assert "1.e+10" == ['1'] + ['.'] + [] + "e+10";
    ShownAroundPoint(['1'], [], "e+10");
  }

  // ---- The value 'e' and 'g' print

  /** `t * 10^u` and `q * 10^v` are the same number. */
  predicate SameNumber(t: nat, u: int, q: nat, v: int) {
    t * Pow(10, Max(0, u - v)) == q * Pow(10, Max(0, v - u))
  }

  /** `t * 10^u` is the input rounded half up to `n` significant digits. */
  ghost predicate RoundedTo(t: nat, u: int, d: seq<char>, xexp: int, n: nat)
    requires AllDigits(d) && n <= |d|
  {
    exists q: nat :: RoundsBy(q, t, u, d, xexp, n)
  }

  ghost predicate RoundsBy(q: nat, t: nat, u: int, d: seq<char>, xexp: int, n: nat)
    requires AllDigits(d) && n <= |d|
  {
    Nearest(q, Val(d), |d| - n) && SameNumber(t, u, q, xexp + 1 - n)
  }

  /** More zeros behind the digits, counted in the exponent, leave the number what it was. */
  lemma ScaleSame(t: nat, k: nat, q: nat, shift: nat)
    requires t * Pow(10, k) == q
    ensures if shift <= k then t * Pow(10, shift) * Pow(10, k - shift) == q
            else t * Pow(10, shift) == q * Pow(10, shift - k)
  {
    hide Pow;
    if shift <= k {
      PowAdd(10, shift, k - shift);
      MulAssoc(t, Pow(10, shift), Pow(10, k - shift));
    } else {
      PowAdd(10, k, shift - k);
      MulAssoc(t, Pow(10, k), Pow(10, shift - k));
    }
  }

  lemma ScaledNumber(t: nat, u: int, q: nat, v: int, shift: nat)
    requires u >= v && t * Pow(10, u - v) == q
    ensures SameNumber(t * Pow(10, shift), u - shift, q, v)
  {
    PowZero();
    ScaleSame(t, u - v, q, shift);
    hide Pow;
    var x := t * Pow(10, shift);
    assert if shift <= u - v then SameNumber(x, u - shift, q, v) <==> x * Pow(10, u - v - shift) == q * 1
           else SameNumber(x, u - shift, q, v) <==> x * 1 == q * Pow(10, shift - (u - v));
  }

  /** The digits shown, with `shift` zeros behind them, are the rounded input. */
  ghost predicate ShownRounded(s: Shown, shift: nat, d: seq<char>, xexp: int, n: nat)
    requires AllDigits(d) && n <= |d| && AllDigits(s.digits)
  {
    RoundedTo(Val(s.digits) * Pow(10, shift), s.xexp + 1 - |s.digits| - shift, d, xexp, n)
  }

  /** What is laid out for a buffer with `n` significant digits to show. */
  ghost predicate ShownFor(s: Shown, d: seq<char>, xexp: int, n: nat)
    requires AllDigits(d) && n <= |d|
  {
    && AllDigits(s.digits) && 0 < |s.digits| <= n && s.digits[0] != '0' && xexp <= s.xexp <= xexp + 1
    && forall shift: nat :: ShownRounded(s, shift, d, xexp, n)
  }

  /** The digits that are laid out are the rounded input, whatever zeros follow them. */
  lemma SignificantIsRounded(code: char, d: seq<char>, xexp: int, prec: nat)
    requires AllDigits(d) && d != [] && d[0] != '0' && 0 < WantedDigits(code, xexp, prec)
    ensures ShownFor(Significant(code, d, xexp, prec), d, xexp, Min(WantedDigits(code, xexp, prec), |d|))
  {
    var n := Min(WantedDigits(code, xexp, prec), |d|);
    var r := Round(d, n);
    RoundIsRounding(d, n);
    RoundShortens(d, n);
    CarryIsSmall(d, n);
    var s := Significant(code, d, xexp, prec);
    assert s == Shown(r.digits, xexp + r.carry);
    hide Round, Nearest, Val, Pow, Significant, RoundedTo, WantedDigits;
    forall shift: nat ensures ShownRounded(s, shift, d, xexp, n) {
      RoundedWithZeros(d, xexp, n, r, shift);
    }
  }

  lemma RoundedWithZeros(d: seq<char>, xexp: int, n: nat, r: Rounded, shift: nat)
    requires AllDigits(d) && n <= |d| && IsRounding(d, n, r)
    ensures RoundedTo(Val(r.digits) * Pow(10, shift), xexp + r.carry + 1 - |r.digits| - shift, d, xexp, n)
  {
    hide Nearest, Val, Pow, SameNumber;
    var t, u, k := Val(r.digits), xexp + r.carry + 1 - |r.digits|, n + r.carry - |r.digits|;
    var q := t * Pow(10, k);
    assert u - (xexp + 1 - n) == k;
    ScaledNumber(t, u, q, xexp + 1 - n, shift);
    assert RoundsBy(q, t * Pow(10, shift), u - shift, d, xexp, n);
  }

  lemma CarryIsSmall(d: seq<char>, n: nat)
    requires AllDigits(d) && 0 < n <= |d|
    ensures Round(d, n).carry <= 1
  {
  }

  /** 'e' and 'g' never cut a digit they were given. */
  lemma FractionReaches(code: char, nsig: nat, xexp: int, prec: nat, alt: bool)
    requires (IsE(code) && 0 < nsig <= prec + 1) || (IsG(code) && 0 < nsig <= prec)
    ensures var f := FractionDigits(code, nsig, xexp, prec, alt);
      if FixedStyle(code, xexp, prec) then xexp + 1 - nsig + f >= 0 else f + 1 >= nsig
    ensures IsE(code) ==> FractionDigits(code, nsig, xexp, prec, alt) == prec && !FixedStyle(code, xexp, prec)
  {
  }

  // ---- Reading a conversion back

  /** What is read back of the text of given digits. */
  function PartsOf(code: char, d: seq<char>, xexp: int, prec: nat, alt: bool): Reading
    requires -10000 < xexp < 10000
  {
    var f := FractionDigits(code, |d|, xexp, prec, alt);
    if FixedStyle(code, xexp, prec) then
      Reading(Places(d, xexp, Top(xexp), Top(xexp) + 1), f > 0 || alt, Places(d, xexp, -1, f), [])
    else Reading(Mantissa(d, f)[..1], f > 0 || alt, Mantissa(d, f)[1..], Exponent(ExponentLetter(code), xexp))
  }

  lemma BodyReads(code: char, d: seq<char>, xexp: int, prec: nat, alt: bool)
    requires AllDigits(d) && d != [] && IsFloatCode(code) && -10000 < xexp < 10000
    ensures Read(BodyText(code, d, xexp, prec, alt)) == PartsOf(code, d, xexp, prec, alt)
  {
    var f, p := FractionDigits(code, |d|, xexp, prec, alt), PartsOf(code, d, xexp, prec, alt);
    hide Val, FractionDigits, ExponentDigits, Read;
    if FixedStyle(code, xexp, prec) {
      PlacesAreDigits(d, xexp, Top(xexp), Top(xexp) + 1);
      PlacesAreDigits(d, xexp, -1, f);
      assert BodyText(code, d, xexp, prec, alt) == BodyText(code, d, xexp, prec, alt) + [];
    } else {
      ExpDenotes(d, f);
    }
    ReadBack(p.whole, p.point, p.fraction, p.tail);
  }

  /** The exponent that is printed reads back, sign and all. */
  lemma ExponentReads(letter: char, xexp: int)
    requires -10000 < xexp < 10000
    ensures ReadExponent(Exponent(letter, xexp)) == xexp
  {
    var e := if xexp >= 0 then xexp else -xexp;
    ExponentParsesBack(e);
    hide ExponentDigits, Val, ReadExponent;
    ReadExponentBack(letter, xexp < 0, ExponentDigits(e));
  }

  /** An exponent has the form that style 'e' asks for. */
  lemma ExponentForm(letter: char, xexp: int)
    requires -10000 < xexp < 10000
    ensures var tail := Exponent(letter, xexp);
      && |tail| >= 4 && tail[0] == letter && (tail[1] == '+' || tail[1] == '-')
      && AllDigits(tail[2..]) && (|tail| > 4 ==> tail[2] != '0')
  {
    var e := if xexp >= 0 then xexp else -xexp;
    ExponentParsesBack(e);
    ExponentPlaces(e);
    assert Exponent(letter, xexp)[2..] == ExponentDigits(e);
  }

  /** The text has the style that its code and exponent ask for. */
  lemma BodyStyle(code: char, d: seq<char>, xexp: int, prec: nat, alt: bool)
    requires AllDigits(d) && d != [] && IsFloatCode(code) && -10000 < xexp < 10000
    requires d[0] != '0' || (d == ['0'] && xexp <= 0)
    ensures var r := Read(BodyText(code, d, xexp, prec, alt)); var f := FractionDigits(code, |d|, xexp, prec, alt);
      if FixedStyle(code, xexp, prec) then IsFStyle(r, f, alt)
      else IsEStyle(r, ExponentLetter(code), f, alt) && ReadExponent(r.tail) == xexp && r.whole[0] == d[0]
  {
    BodyReads(code, d, xexp, prec, alt);
    hide Read, FractionDigits, Exponent, ReadExponent, BodyText;
    if !FixedStyle(code, xexp, prec) {
      ExponentReads(ExponentLetter(code), xexp);
      ExponentForm(ExponentLetter(code), xexp);
    }
  }

  /** The digits of the parts, as one number: all of the digits given and zeros behind them. */
  lemma PartsValue(code: char, d: seq<char>, xexp: int, prec: nat, alt: bool) returns (shift: nat)
    requires AllDigits(d) && d != [] && (IsE(code) || IsG(code)) && |d| <= prec + if IsE(code) then 1 else 0
    requires -10000 < xexp < 10000
    ensures var p := PartsOf(code, d, xexp, prec, alt);
      && AllDigits(DigitsOf(p)) && Val(DigitsOf(p)) == Val(d) * Pow(10, shift)
      && (if p.tail == [] then 0 else xexp) - |p.fraction| == xexp + 1 - |d| - shift
      && p.tail == if FixedStyle(code, xexp, prec) then [] else Exponent(ExponentLetter(code), xexp)
  {
    FractionReaches(code, |d|, xexp, prec, alt);
    hide Val, Pow, FractionDigits, FixedStyle, ExponentDigits;
    var f := FractionDigits(code, |d|, xexp, prec, alt);
    if FixedStyle(code, xexp, prec) {
      shift := xexp + 1 - |d| + f;
      FixedDigitsOf(d, xexp, f);
      FixedDenotes(d, xexp, f);
    } else {
      shift := f + 1 - |d|;
      ExpDenotes(d, f);
      assert Mantissa(d, f)[..1] + Mantissa(d, f)[1..] == Mantissa(d, f);
    }
  }

  /** What is read from a text are the digits shown, with `shift` zeros behind them. */
  ghost predicate ReadsAs(text: seq<char>, s: Shown, shift: nat)
    requires AllDigits(s.digits)
  {
    var r := Read(text);
    && Val(DigitsOf(r)) == Val(s.digits) * Pow(10, shift)
    && ReadExponent(r.tail) - |r.fraction| == s.xexp + 1 - |s.digits| - shift
  }

  /** So are the digits read from the text, and the exponent read with them. */
  lemma BodyValue(code: char, s: Shown, prec: nat, alt: bool) returns (shift: nat)
    requires AllDigits(s.digits) && s.digits != [] && (IsE(code) || IsG(code))
    requires |s.digits| <= prec + (if IsE(code) then 1 else 0) && -10000 < s.xexp < 10000
    ensures ReadsAs(BodyText(code, s.digits, s.xexp, prec, alt), s, shift)
  {
    BodyReads(code, s.digits, s.xexp, prec, alt);
    ExponentReads(ExponentLetter(code), s.xexp);
    assert ReadExponent([]) == 0;
    hide PartsOf, Val, Pow, DigitsOf, FixedStyle, Read, Exponent, ExponentLetter, ReadExponent, BodyText;
    shift := PartsValue(code, s.digits, s.xexp, prec, alt);
  }

  /** What is read from the text is the input rounded half up to `n` significant digits. */
  ghost predicate ReadsAsRounded(text: seq<char>, d: seq<char>, xexp: int, n: nat)
    requires AllDigits(d) && n <= |d|
  {
    var r := Read(text);
    RoundedTo(Val(DigitsOf(r)), ReadExponent(r.tail) - |r.fraction|, d, xexp, n)
  }

  lemma ReadRounded(text: seq<char>, s: Shown, shift: nat, d: seq<char>, xexp: int, n: nat)
    requires AllDigits(d) && n <= |d| && ShownFor(s, d, xexp, n) && ReadsAs(text, s, shift)
    ensures ReadsAsRounded(text, d, xexp, n)
  {
    assert ShownRounded(s, shift, d, xexp, n);
    hide RoundedTo, Val, Pow, Read, ReadExponent, DigitsOf;
  }

  /**
   'e' and 'g' as a whole, for every digit buffer and precision, with and without '#': what
   is read back from the text, exponent sign included, is the argument rounded half up to
   the significant digits asked for.
   */
  lemma BodyRounds(code: char, d: seq<char>, xexp: int, prec: nat, alt: bool)
    requires IsE(code) || (IsG(code) && prec > 0)
    requires AllDigits(d) && d != [] && d[0] != '0' && -9999 < xexp < 9999
    ensures var s := Significant(code, d, xexp, prec);
      && -10000 < s.xexp < 10000
      && ReadsAsRounded(BodyText(code, s.digits, s.xexp, prec, alt), d, xexp,
                        Min(if IsE(code) then prec + 1 else prec, |d|))
  {
    SignificantIsRounded(code, d, xexp, prec);
    var s := Significant(code, d, xexp, prec);
    hide Significant, BodyText, ReadsAs, ReadsAsRounded, ShownRounded;
    var shift := BodyValue(code, s, prec, alt);
    ReadRounded(BodyText(code, s.digits, s.xexp, prec, alt), s, shift, d, xexp,
                Min(if IsE(code) then prec + 1 else prec, |d|));
  }
}
