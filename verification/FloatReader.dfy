/**
 Reading a printed number back, character by character, and the two styles that section
 7.19.6.1 of ISO/IEC 9899:1999 describes for it.
 */
module FloatReader {
  import opened Common
  import opened Decimal

  /** Digits, perhaps a point and more digits, and whatever follows. */
  datatype Reading = Reading(whole: seq<char>, point: bool, fraction: seq<char>, tail: seq<char>)

  /** The digits at the front. */
  function LeadingDigits(s: seq<char>): (d: seq<char>)
    ensures d <= s && AllDigits(d)
  {
    if s == [] || !IsDigit(s[0]) then [] else [s[0]] + LeadingDigits(s[1..])
  }

  function Read(s: seq<char>): (r: Reading)
    ensures AllDigits(r.whole + r.fraction)
  {
    var whole := LeadingDigits(s);
    var rest := s[|whole|..];
    if rest == [] || rest[0] != '.' then Reading(whole, false, [], rest)
    else
      var fraction := LeadingDigits(rest[1..]);
      Reading(whole, true, fraction, rest[1 + |fraction|..])
  }

  /** The power of ten that a tail asks for: a letter, a sign and digits; none for an empty tail. */
  function ReadExponent(tail: seq<char>): int {
    if |tail| < 2 then 0
    else if tail[1] == '-' then -(Val(LeadingDigits(tail[2..])) as int)
    else if tail[1] == '+' then Val(LeadingDigits(tail[2..]))
    else Val(LeadingDigits(tail[1..]))
  }

  /** All digits of a reading, before and behind the point. */
  function DigitsOf(r: Reading): seq<char> {
    r.whole + r.fraction
  }

  /** Style 'f': an integer part without superfluous zeros, and exactly `prec` digits behind the point. */
  predicate IsFStyle(r: Reading, prec: nat, alt: bool) {
    && |r.whole| >= 1 && (|r.whole| > 1 ==> r.whole[0] != '0')
    && |r.fraction| == prec && (r.point <==> prec > 0 || alt) && r.tail == []
  }

  /**
   Style 'e': one digit, `prec` more behind the point, and an exponent of the given letter, a
   sign and at least two digits, only as many more as necessary.
   */
  predicate IsEStyle(r: Reading, letter: char, prec: nat, alt: bool) {
    && |r.whole| == 1
    && |r.fraction| == prec && (r.point <==> prec > 0 || alt)
    && |r.tail| >= 4 && r.tail[0] == letter && (r.tail[1] == '+' || r.tail[1] == '-')
    && AllDigits(r.tail[2..]) && (|r.tail| > 4 ==> r.tail[2] != '0')
  }

  lemma {:induction false} LeadingDigitsOf(a: seq<char>, b: seq<char>)
    requires AllDigits(a) && (b == [] || !IsDigit(b[0]))
    ensures LeadingDigits(a + b) == a
  {
    if a == [] {
      assert a + b == b;
    } else {
      LeadingDigitsOf(a[1..], b);
      assert (a + b)[1..] == a[1..] + b;
    }
  }

  /** A text made of these parts is read as them. */
  lemma ReadBack(whole: seq<char>, point: bool, fraction: seq<char>, tail: seq<char>)
    requires AllDigits(whole) && AllDigits(fraction) && (!point ==> fraction == [])
    requires tail == [] || (!IsDigit(tail[0]) && tail[0] != '.')
    ensures Read(whole + (if point then ['.'] else []) + fraction + tail) == Reading(whole, point, fraction, tail)
  {
    var s := whole + (if point then ['.'] else []) + fraction + tail;
    var rest := (if point then ['.'] else []) + (fraction + tail);
    Regroup(whole + (if point then ['.'] else []), fraction, tail);
    Regroup(whole, if point then ['.'] else [], fraction + tail);
    assert s == whole + rest;
    LeadingDigitsOf(whole, rest);
    if point {
      assert rest[1..] == fraction + tail;
      LeadingDigitsOf(fraction, tail);
      assert rest[1 + |fraction|..] == tail;
    } else {
      assert rest == tail;
    }
  }

  /** Digits behind a letter and a sign are read with that sign. */
  lemma ReadExponentBack(letter: char, negative: bool, digits: seq<char>)
    requires AllDigits(digits)
    ensures var e: int := Val(digits);
      ReadExponent([letter, if negative then '-' else '+'] + digits) == if negative then -e else e
  {
    var tail := [letter, if negative then '-' else '+'] + digits;
    assert tail[2..] == digits && digits + [] == digits;
    LeadingDigitsOf(digits, []);
  }
}
