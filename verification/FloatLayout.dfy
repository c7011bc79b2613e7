/** `_Genld` and `_Ldtob`: laying out rounded digits in the fields of the record. */
module FloatLayout {
  import opened Common
  import opened Decimal
  import opened Rounding
  import opened FloatReader
  import opened FloatText
  import opened PrintField

  /** The most digits `_Ldtob` ever has in its buffer: three chunks of eight. */
  const MAX_DIGITS: nat := 24

  // ---- The three shapes of the fixed style

  lemma FixedBelowOne(d: seq<char>, xexp: int, prec: nat, alt: bool)
    requires xexp + 1 <= 0
    ensures var z := Min(prec, -(xexp + 1)); var n := Min(prec - z, |d|);
      FixedText(d, xexp, prec, alt) == Join(['0'] + Point(prec, alt), z, d[..n], prec - z - n)
  {
    var z := Min(prec, -(xexp + 1));
    var n := Min(prec - z, |d|);
    assert Places(d, xexp, 0, 1) == ['0'];
    assert Places(d, xexp, -1, prec) == Zeros(z) + d[..n] + Zeros(prec - z - n);
  }

  lemma FixedAllWhole(d: seq<char>, xexp: int, prec: nat, alt: bool)
    requires |d| < xexp + 1
    ensures FixedText(d, xexp, prec, alt) == Join(d, xexp + 1 - |d|, Point(prec, alt), prec)
  {
    assert Places(d, xexp, xexp, xexp + 1) == d + Zeros(xexp + 1 - |d|);
    assert Places(d, xexp, -1, prec) == Zeros(prec);
  }

  lemma FixedMixed(d: seq<char>, xexp: int, prec: nat, alt: bool)
    requires 0 < xexp + 1 <= |d|
    ensures var n := Min(prec, |d| - (xexp + 1));
      FixedText(d, xexp, prec, alt)
      == Join(d[..xexp + 1] + Point(prec, alt) + d[xexp + 1..xexp + 1 + n], prec - n, [], 0)
  {
    var n := Min(prec, |d| - (xexp + 1));
    assert Places(d, xexp, xexp, xexp + 1) == d[..xexp + 1];
    assert Places(d, xexp, -1, prec) == d[xexp + 1..xexp + 1 + n] + Zeros(prec - n);
  }

  /** Writes the point if there is something behind it or '#' asks for it. */
  method AddPoint(px: Pft)
    requires px.InBuffer() && px.n2 == 0 && px.prec >= 0 && px.off + px.n1 + 1 <= AC_LEN
    modifies px`n1, px.ac
    ensures px.InBuffer() && px.Prefix() == old(px.Prefix()) && px.n1 <= old(px.n1) + 1
    ensures px.First() == old(px.First()) + Point(px.prec, px.flags.hash) && px.Second() == []
  {
    hide Pft.First, Pft.Second, Pft.Prefix;
    NoSecond(px);
    if px.prec > 0 || px.flags.hash {
      px.AddFirst(['.']);
    }
  }

  lemma NoSecond(px: Pft)
    requires px.Valid() && px.n2 == 0
    ensures px.Second() == []
  {
  }

  /** The 'f' branch for numbers below one: leading zeros come from `nz1`. */
  method LayoutBelowOne(px: Pft, d: seq<char>, xexp0: int)
    requires px.Cleared() && px.prec >= 0 && 0 < |d| && px.off + |d| + 2 <= AC_LEN && xexp0 <= 0
    modifies px`n1, px`nz1, px`n2, px`nz2, px`prec, px.ac
    ensures px.InBuffer() && px.Prefix() == old(px.Prefix())
    ensures px.Body() == FixedText(d, xexp0 - 1, old(px.prec), px.flags.hash)
  {
    hide FixedText, Join, Zeros, Point, Pft.First, Pft.Second, Pft.Prefix;
    FixedBelowOne(d, xexp0 - 1, px.prec, px.flags.hash);
    var nsig, xexp := |d|, xexp0;
    px.AddFirst(['0']);
    AddPoint(px);
    if px.prec < -xexp {
      xexp := -px.prec;
    }
    px.nz1 := -xexp;
    px.prec := px.prec + xexp;
    if px.prec < nsig {
      nsig := px.prec;
    }
    px.AddSecond(d[..nsig]);
    px.nz2 := px.prec - nsig;
  }

  /** The 'f' branch for whole numbers with more places than digits. */
  method LayoutWhole(px: Pft, d: seq<char>, xexp: int)
    requires px.Cleared() && px.prec >= 0 && 0 < |d| < xexp && px.off + |d| + 2 <= AC_LEN
    modifies px`n1, px`nz1, px`n2, px`nz2, px`prec, px.ac
    ensures px.InBuffer() && px.Prefix() == old(px.Prefix())
    ensures px.Body() == FixedText(d, xexp - 1, old(px.prec), px.flags.hash)
  {
    hide FixedText, Join, Zeros, Pft.First, Pft.Second, Pft.Prefix;
    FixedAllWhole(d, xexp - 1, px.prec, px.flags.hash);
    px.AddFirst(d);
    px.nz1 := xexp - |d|;
    if px.prec > 0 || px.flags.hash {
      px.AddSecond(['.']);
    }
    px.nz2 := px.prec;
  }

  /** The 'f' branch for numbers with digits on both sides of the point. */
  method LayoutMixed(px: Pft, d: seq<char>, xexp: int)
    requires px.Cleared() && px.prec >= 0 && 0 < xexp <= |d| && px.off + |d| + 2 <= AC_LEN
    modifies px`n1, px`nz1, px`n2, px`nz2, px`prec, px.ac
    ensures px.InBuffer() && px.Prefix() == old(px.Prefix())
    ensures px.Body() == FixedText(d, xexp - 1, old(px.prec), px.flags.hash)
  {
    hide FixedText, Join, Zeros, Point, Pft.First, Pft.Second, Pft.Prefix;
    FixedMixed(d, xexp - 1, px.prec, px.flags.hash);
    px.AddFirst(d[..xexp]);
    AddPoint(px);
    var nsig := |d| - xexp;
    if px.prec < nsig {
      nsig := px.prec;
    }
    px.AddFirst(d[xexp..xexp + nsig]);
    px.nz1 := px.prec - nsig;
  }

  /** The 'f' branch; `px.prec` already holds the fraction digits. */
  method LayoutFixed(px: Pft, d: seq<char>, xexp0: int)
    requires px.Cleared() && px.prec >= 0 && 0 < |d| && px.off + |d| + 2 <= AC_LEN
    modifies px`n1, px`nz1, px`n2, px`nz2, px`prec, px.ac
    ensures px.InBuffer() && px.Prefix() == old(px.Prefix())
    ensures px.Body() == FixedText(d, xexp0, old(px.prec), px.flags.hash)
  {
    hide FixedText, Pft.Body, Pft.Prefix;
    var xexp := xexp0 + 1;
    if xexp <= 0 {
      LayoutBelowOne(px, d, xexp);
    } else if |d| < xexp {
      LayoutWhole(px, d, xexp);
    } else {
      LayoutMixed(px, d, xexp);
    }
  }

  lemma ExpShape(d: seq<char>, xexp: int, prec: nat, alt: bool, code: char)
    requires -10000 < xexp < 10000 && d != []
    ensures var n := Min(prec, |d| - 1);
      ExpText(d, xexp, prec, alt, code)
      == Join([d[0]] + Point(prec, alt) + d[1..1 + n], prec - n, Exponent(code, xexp), 0)
  {
    var n := Min(prec, |d| - 1);
    assert Mantissa(d, prec)[..1] == [d[0]];
    assert Mantissa(d, prec)[1..] == d[1..1 + n] + Zeros(prec - n);
  }

  /** The 'e' branch; `px.prec` already holds the fraction digits. */
  method LayoutExp(px: Pft, code: char, d: seq<char>, xexp0: int)
    requires px.Cleared() && px.prec >= 0 && 0 < |d| && px.off + |d| + 7 <= AC_LEN && -10000 < xexp0 < 10000
    modifies px`n1, px`nz1, px`n2, px.ac
    ensures px.InBuffer() && px.Prefix() == old(px.Prefix())
    ensures px.Body() == ExpText(d, xexp0, px.prec, px.flags.hash, code)
  {
    hide ExpText, Join, Zeros, Point, Exponent, Pft.First, Pft.Second, Pft.Prefix;
    ExpShape(d, xexp0, px.prec, px.flags.hash, code);
    px.AddFirst([d[0]]);
    AddPoint(px);
    if px.prec > 0 {
      var nsig := |d| - 1;
      if px.prec < nsig {
        nsig := px.prec;
      }
      px.AddFirst(d[1..1 + nsig]);
      px.nz1 := px.prec - nsig;
    } else {
      assert px.First() == px.First() + d[1..1];
    }
    LayoutExponent(px, code, xexp0);
  }

  /** Writes the exponent letter, the sign and the digits. */
  method LayoutExponent(px: Pft, code: char, xexp0: int)
    requires px.InBuffer() && px.n2 == 0 && px.off + px.n1 + 6 <= AC_LEN && -10000 < xexp0 < 10000
    modifies px`n2, px.ac
    ensures px.InBuffer() && px.Prefix() == old(px.Prefix()) && px.First() == old(px.First())
    ensures px.Second() == Exponent(code, xexp0)
  {
    hide Pft.First, Pft.Second, Pft.Prefix, ExponentDigits;
    px.AddSecond([code]);
    if xexp0 >= 0 {
      px.AddSecond(['+']);
      LayoutDigits(px, xexp0);
    } else {
      px.AddSecond(['-']);
      LayoutDigits(px, -xexp0);
    }
  }

  /** The digits of the exponent: the last two, and before them those that are needed. */
  method LayoutDigits(px: Pft, xexp0: nat)
    requires px.InBuffer() && px.off + px.n1 + px.n2 + 4 <= AC_LEN && xexp0 < 10000
    modifies px`n2, px.ac
    ensures px.InBuffer() && px.Prefix() == old(px.Prefix()) && px.First() == old(px.First())
    ensures px.Second() == old(px.Second()) + ExponentDigits(xexp0)
  {
    hide Pft.First, Pft.Second, Pft.Prefix, DigitChar, HundredsDigits;
    var xexp := xexp0;
    ExponentPlaces(xexp0);
    if xexp >= 100 {
      LayoutHundreds(px, xexp);
      xexp := xexp % 100;
    } else {
      NoHundreds(xexp0);
    }
    px.AddSecond([DigitChar(xexp / 10)]);
    px.AddSecond([DigitChar(xexp % 10)]);
  }

  lemma NoHundreds(e: nat)
    requires e < 100
    ensures HundredsDigits(e) == []
  {
  }

  /** The digits of an exponent of 100 and above, before its last two. */
  method LayoutHundreds(px: Pft, xexp0: nat)
    requires px.InBuffer() && px.off + px.n1 + px.n2 + 2 <= AC_LEN && 100 <= xexp0 < 10000
    modifies px`n2, px.ac
    ensures px.InBuffer() && px.Prefix() == old(px.Prefix()) && px.First() == old(px.First())
    ensures px.Second() == old(px.Second()) + HundredsDigits(xexp0) && px.n2 <= old(px.n2) + 2
  {
    hide Pft.First, Pft.Second, Pft.Prefix, DigitChar;
    ExponentPlaces(xexp0);
    var xexp := xexp0;
    if xexp >= 1000 {
      px.AddSecond([DigitChar(xexp / 1000)]);
      xexp := xexp % 1000;
    }
    px.AddSecond([DigitChar(xexp / 100)]);
  }

  /** Pads with zeros after the prefix, when asked to fill the width with them. */
  function ZeroPadding(flags: Flags, width: int, n: nat): nat {
    if flags.zero && !flags.minus && n < width then width - n else 0
  }

  lemma BodyLength(px: Pft)
    requires px.Valid()
    ensures |px.Body()| == px.n1 + px.nz1 + px.n2 + px.nz2
  {
  }

  /** The style choice of `_Genld` and its adjustment of the precision. */
  method LayoutStyle(px: Pft, code: char, d: seq<char>, xexp: int)
    requires px.Cleared() && px.prec >= 0 && px.off <= 1
    requires 0 < |d| <= MAX_DIGITS && -10000 < xexp < 10000
    modifies px`n1, px`nz1, px`n2, px`nz2, px`prec, px.ac
    ensures px.InBuffer() && px.Prefix() == old(px.Prefix())
    ensures px.Body() == BodyText(code, d, xexp, old(px.prec), px.flags.hash)
  {
    hide FixedText, ExpText, Pft.Body, Pft.Prefix;
    var nsig := |d|;
    if code == 'f' || (IsG(code) && -4 <= xexp < px.prec) {
      if code != 'f' {
        if !px.flags.hash && nsig < px.prec {
          px.prec := nsig;
        }
        px.prec := px.prec - (xexp + 1);
        if px.prec < 0 {
          px.prec := 0;
        }
      }
      LayoutFixed(px, d, xexp);
    } else if IsG(code) {
      if nsig < px.prec {
        px.prec := nsig;
      }
      px.prec := px.prec - 1;
      if px.prec < 0 {
        px.prec := 0;
      }
      LayoutExp(px, if code == 'g' then 'e' else 'E', d, xexp);
    } else {
      LayoutExp(px, code, d, xexp);
    }
  }

  /** `_Genld`: lays the digits out and pads with zeros; `nsig <= 0` means the single digit 0. */
  method Genld(px: Pft, code: char, p: seq<char>, nsig: int, xexp: int)
    requires px.Cleared() && px.prec >= 0 && px.off <= 1
    requires nsig > 0 ==> nsig == |p| <= MAX_DIGITS
    requires -10000 < xexp < 10000
    modifies px`nz0, px`n1, px`nz1, px`n2, px`nz2, px`prec, px.ac
    ensures px.InBuffer() && px.Prefix() == old(px.Prefix())
    ensures px.Body() == BodyText(code, if nsig <= 0 then ['0'] else p, xexp, old(px.prec), px.flags.hash)
    ensures px.nz0 == ZeroPadding(px.flags, px.width, px.n0 + |px.Body()|)
  {
    LayoutStyle(px, code, if nsig <= 0 then ['0'] else p, xexp);
    BodyLength(px);
    hide BodyText, Pft.Body, Pft.Prefix;
    if px.flags.zero && !px.flags.minus {
      var n := px.n0 + px.n1 + px.nz1 + px.n2 + px.nz2;
      if n < px.width {
        px.nz0 := px.width - n;
      }
    }
  }

  // ---- From the argument to the layout

  /**
   A floating argument as `_Ldtob` sees it after scaling: the digits it generated, at
   least one of them not zero, and the decimal exponent of the first. Of a number far
   below the last place of 'f' no digits are generated (see `NoneGenerated`): the number has
   digits all the same, but the cells of the buffer hold whatever they held before.
   */
  datatype FloatClass =
    | NotANumber
    | Infinite
    | Zero
    | Finite(digits: seq<char>, xexp: int)
    | Tiny(digits: seq<char>, xexp: int, cells: seq<char>)
  {
    predicate Valid() {
      && (Finite? ==> AllDigits(digits) && |digits| <= MAX_DIGITS && HasDigit(digits) && -9000 < xexp < 9000)
      && (Tiny? ==> AllDigits(digits) && HasDigit(digits) && -9000 < xexp < 0
                    && |cells| == BUFF_LEN - 1 && HasDigit(cells))
    }
  }

  /** Length of the buffer of `_Ldtob`. */
  const BUFF_LEN: nat := 32

  /** The digits from the first that is not zero, and its exponent. */
  function Trimmed(digits: seq<char>, xexp: int): (r: Shown)
    requires Finite(digits, xexp).Valid()
    ensures AllDigits(r.digits) && 0 < |r.digits| <= MAX_DIGITS && r.digits[0] != '0'
    ensures -9999 < r.xexp < 9000
  {
    var z := LeadingZeros(digits);
    Shown(digits[z..], xexp - z)
  }

  /** It is the same number: as many digits fewer as the exponent is lower. */
  lemma TrimmedKeepsValue(digits: seq<char>, xexp: int)
    requires Finite(digits, xexp).Valid()
    ensures var r := Trimmed(digits, xexp);
      Val(r.digits) == Val(digits) && r.xexp + 1 - |r.digits| == xexp + 1 - |digits|
  {
    var z := LeadingZeros(digits);
    assert digits == Zeros(z) + digits[z..];
    ValAppend(Zeros(z), digits[z..]);
    ValZeros(z);
  }

  function EffectivePrec(code: char, prec: int): nat {
    if prec < 0 then 6 else if prec == 0 && IsG(code) then 1 else prec
  }

  /**
   The loop that generates digits is never entered, as `gen` is not positive. Here `xexp` is
   the exponent of the first digit, which is 7 more than what the code has at that point.
   */
  predicate NoneGenerated(code: char, xexp: int, prec: int) {
    EffectivePrec(code, prec) + (if code == 'f' then 10 + (xexp - 7) else 6) <= 0
  }

  /** The text of a finite or zero argument after its sign. */
  function FloatBody(code: char, v: FloatClass, prec: nat, alt: bool): seq<char>
    requires v.Valid() && !v.NotANumber? && !v.Infinite?
  {
    if v.Zero? then BodyText(code, ['0'], 0, prec, alt)
    else if v.Tiny? then BodyText(code, ['0'], v.xexp - LeadingZeros(v.cells), prec, alt)
    else
      var d := Trimmed(v.digits, v.xexp);
      var s := Significant(code, d.digits, d.xexp, prec);
      BodyText(code, s.digits, s.xexp, prec, alt)
  }

  function ConvertedText(code: char, v: FloatClass, prec: int, alt: bool): seq<char>
    requires v.Valid()
  {
    if v.NotANumber? then "NaN"
    else if v.Infinite? then "Inf"
    else FloatBody(code, v, EffectivePrec(code, prec), alt)
  }

  lemma ZeroBody(code: char, prec: nat, alt: bool)
    ensures FloatBody(code, Zero, prec, alt) == BodyText(code, ['0'], 0, prec, alt)
  {
  }

  lemma TinyBody(code: char, digits: seq<char>, xexp: int, cells: seq<char>, prec: nat, alt: bool)
    requires Tiny(digits, xexp, cells).Valid()
    ensures FloatBody(code, Tiny(digits, xexp, cells), prec, alt)
         == BodyText(code, ['0'], xexp - LeadingZeros(cells), prec, alt)
  {
    hide LeadingZeros, BodyText;
  }

  lemma JoinPlain(px: Pft, a: seq<char>)
    requires px.Valid() && px.First() == a && px.Second() == [] && px.nz1 == 0 && px.nz2 == 0
    ensures px.Body() == a
  {
  }

  /** `_Ldtob` from the finished digit buffer onward. */
  method Ldtob(px: Pft, code: char, v: FloatClass)
    requires px.Cleared() && px.off <= 1 && v.Valid()
    modifies px`nz0, px`n1, px`nz1, px`n2, px`nz2, px`prec, px.ac
    ensures px.InBuffer() && px.Prefix() == old(px.Prefix())
    ensures px.Body() == ConvertedText(code, v, old(px.prec), px.flags.hash)
    ensures px.nz0 == if v.NotANumber? || v.Infinite? then 0
                      else ZeroPadding(px.flags, px.width, px.n0 + |px.Body()|)
  {
    hide FloatBody, Pft.First, Pft.Second, Pft.Body, Pft.Prefix;
    if px.prec < 0 {
      px.prec := 6;
    } else if px.prec == 0 && IsG(code) {
      px.prec := 1;
    }
    match v
    case NotANumber =>
      px.AddFirst("NaN");
      JoinPlain(px, "NaN");
    case Infinite =>
      px.AddFirst("Inf");
      JoinPlain(px, "Inf");
    case Zero =>
      ZeroBody(code, px.prec, px.flags.hash);
      Genld(px, code, [], 0, 0);
    case Finite(digits, xexp0) =>
      LdtobFinite(px, code, digits, xexp0);
    case Tiny(digits, xexp0, cells) =>
      TinyBody(code, digits, xexp0, cells, px.prec, px.flags.hash);
      LdtobTiny(px, code, cells, xexp0);
  }

  /** The digits are written behind a guard '0' and the leading zeros skipped. */
  method LdtobFinite(px: Pft, code: char, digits: seq<char>, xexp0: int)
    requires px.Cleared() && px.off <= 1 && px.prec >= 0 && Finite(digits, xexp0).Valid()
    modifies px`nz0, px`n1, px`nz1, px`n2, px`nz2, px`prec, px.ac
    ensures px.InBuffer() && px.Prefix() == old(px.Prefix())
    ensures px.Body() == FloatBody(code, Finite(digits, xexp0), old(px.prec), px.flags.hash)
    ensures px.nz0 == ZeroPadding(px.flags, px.width, px.n0 + |px.Body()|)
  {
    hide BodyText, Significant, Pft.Body, Pft.Prefix, LeadingZeros, ZeroPadding;
    var buff := BehindGuard(digits);
    LeadingZerosOf(digits, buff[1..]);
    var p, gen, xexp := SkipZeros(buff, |digits|, xexp0);
    TailOf(buff[..], digits, p);
    assert buff[p - 1] == '0';
    LdtobRound(px, code, buff, p, gen, xexp);
  }

  /** The digits in a buffer, behind a guard '0'. */
  method BehindGuard(digits: seq<char>) returns (buff: array<char>)
    requires |digits| < BUFF_LEN
    ensures fresh(buff) && buff.Length == BUFF_LEN && buff[0] == '0'
    ensures digits <= buff[1..]
  {
    buff := new char[BUFF_LEN](i => if 1 <= i <= |digits| then digits[i - 1] else '0');
  }

  lemma TailOf(buff: seq<char>, digits: seq<char>, p: nat)
    requires buff != [] && digits <= buff[1..] && 1 <= p <= 1 + |digits|
    ensures buff[p..1 + |digits|] == digits[p - 1..]
  {
    assert forall i :: 0 <= i < |digits| ==> buff[1..][i] == digits[i];
  }

  /** No digits: the zero skip meets what the cells held before, and then there is nothing to round. */
  method LdtobTiny(px: Pft, code: char, cells: seq<char>, xexp0: int)
    requires px.Cleared() && px.off <= 1 && px.prec >= 0
    requires |cells| == BUFF_LEN - 1 && HasDigit(cells) && -9000 < xexp0 < 0
    modifies px`nz0, px`n1, px`nz1, px`n2, px`nz2, px`prec, px.ac
    ensures px.InBuffer() && px.Prefix() == old(px.Prefix())
    ensures px.Body() == BodyText(code, ['0'], xexp0 - LeadingZeros(cells), old(px.prec), px.flags.hash)
    ensures px.nz0 == ZeroPadding(px.flags, px.width, px.n0 + |px.Body()|)
  {
    hide BodyText, Pft.Body, Pft.Prefix, LeadingZeros;
    var buff := BehindGuard(cells);
    assert buff[1..] == cells;
    var p, gen, xexp := SkipZeros(buff, 0, xexp0);
    var nsig := WantedDigits(code, xexp, px.prec);
    if gen < nsig {
      nsig := gen;
    }
    Genld(px, code, [], nsig, xexp);
  }

  /**
   '%f' then prints the same as for a zero, whatever the cells held, and rightly so: zero is
   the number rounded half up to the wanted places.
   */
  lemma TinyPrintsZero(digits: seq<char>, xexp0: int, cells: seq<char>, prec: int, alt: bool)
    requires Tiny(digits, xexp0, cells).Valid() && NoneGenerated('f', xexp0, prec)
    ensures ConvertedText('f', Tiny(digits, xexp0, cells), prec, alt) == ConvertedText('f', Zero, prec, alt)
    ensures var places := EffectivePrec('f', prec);
      ConvertedText('f', Zero, prec, alt) == ['0'] + Point(places, alt) + Zeros(places)
    ensures var z := LeadingZeros(digits);
      CorrectlyRounded(0, digits[z..], xexp0 - z, EffectivePrec('f', prec))
  {
    var places := EffectivePrec('f', prec);
    TinyIsZero(digits, xexp0, places);
    hide LeadingZeros, CorrectlyRounded, FixedText;
    ZeroEverywhere(xexp0 - LeadingZeros(cells), places, alt);
    ZeroEverywhere(0, places, alt);
  }

  lemma TinyIsZero(digits: seq<char>, xexp: int, places: nat)
    requires AllDigits(digits) && HasDigit(digits) && places + xexp + 3 <= 0
    ensures var z := LeadingZeros(digits); CorrectlyRounded(0, digits[z..], xexp - z, places)
  {
    hide LeadingZeros, CorrectlyRounded, Val;
    var z := LeadingZeros(digits);
    PrintedZero(digits[z..], xexp - z, places);
  }

  lemma ZeroEverywhere(xexp: int, prec: nat, alt: bool)
    requires xexp <= 0
    ensures FixedText(['0'], xexp, prec, alt) == ['0'] + Point(prec, alt) + Zeros(prec)
  {
    assert Places(['0'], xexp, 0, 1) == ['0'] && Places(['0'], xexp, -1, prec) == Zeros(prec);
  }

  /** Rounds the `gen` digits at `buff[p..]` to what the conversion wants and lays them out. */
  method LdtobRound(px: Pft, code: char, buff: array<char>, p0: nat, gen: nat, xexp0: int)
    requires px.Cleared() && px.off <= 1 && px.prec >= 0 && buff != px.ac
    requires 0 < p0 && p0 + gen <= buff.Length && 0 < gen <= MAX_DIGITS && -9999 < xexp0 < 9000
    requires AllDigits(buff[p0..p0 + gen]) && buff[p0] != '0' && buff[p0 - 1] == '0'
    modifies px`nz0, px`n1, px`nz1, px`n2, px`nz2, px`prec, px.ac, buff
    ensures px.InBuffer() && px.Prefix() == old(px.Prefix())
    ensures var s := Significant(code, old(buff[p0..p0 + gen]), xexp0, old(px.prec));
      -10000 < s.xexp < 10000 && px.Body() == BodyText(code, s.digits, s.xexp, old(px.prec), px.flags.hash)
    ensures px.nz0 == ZeroPadding(px.flags, px.width, px.n0 + |px.Body()|)
  {
    ghost var d := buff[p0..p0 + gen];
    SignificantOf(code, d, xexp0, px.prec);
    hide BodyText, Significant, WantedDigits, Pft.Body, Pft.Prefix, AllDigits;
    var p, nsig, xexp := p0, WantedDigits(code, xexp0, px.prec), xexp0;
    if gen < nsig {
      nsig := gen;
    }
    if nsig > 0 {
      RoundShortens(d, nsig);
      hide Round;
      p, nsig, xexp := RoundInPlace(buff, p, gen, nsig, xexp);
      Genld(px, code, buff[p..p + nsig], nsig, xexp);
    } else {
      Genld(px, code, [], nsig, xexp);
    }
  }

  lemma SignificantOf(code: char, d: seq<char>, xexp: int, prec: nat)
    requires AllDigits(d) && d != []
    ensures var nsig := Min(WantedDigits(code, xexp, prec), |d|);
      Significant(code, d, xexp, prec)
      == if nsig > 0 then Shown(Round(d, nsig).digits, xexp + Round(d, nsig).carry) else Shown(['0'], xexp)
  {
  }

  // ---- Reading the text back

  /**
   '%f' as a whole, for every digit buffer: the text has the style of the standard, with 6
   places by default, and the number read back is the argument rounded half up, unless the
   first digit stands just beyond the last place and is 5 or more.
   */
  lemma PercentF(digits: seq<char>, xexp0: int, prec: int, alt: bool)
    requires Finite(digits, xexp0).Valid()
    ensures var places, d := if prec < 0 then 6 else prec, Trimmed(digits, xexp0);
      var r := Read(ConvertedText('f', Finite(digits, xexp0), prec, alt));
      && IsFStyle(r, places, alt)
      && (CorrectlyRounded(Val(DigitsOf(r)), d.digits, d.xexp, places) <==>
          !(d.xexp + 1 + places == 0 && d.digits[0] >= '5'))
  {
    var places, d := EffectivePrec('f', prec), Trimmed(digits, xexp0);
    hide CorrectlyRounded, PrintedFixed, Val, Read, DigitsOf, IsFStyle, Trimmed, LeadingZeros, BodyText, Significant;
    PercentFReads(d.digits, d.xexp, places, alt);
    FixedRoundsIff(d.digits, d.xexp, places);
  }

  lemma PercentFReads(d: seq<char>, xexp: int, prec: nat, alt: bool)
    requires AllDigits(d) && d != [] && d[0] != '0' && -9999 < xexp < 9999
    ensures var s := Significant('f', d, xexp, prec);
      && -10000 < s.xexp < 10000
      && var r := Read(BodyText('f', s.digits, s.xexp, prec, alt));
      IsFStyle(r, prec, alt) && Val(DigitsOf(r)) == PrintedFixed(d, xexp, prec)
  {
    hide Round, Val, Read, BodyText;
    var s := Significant('f', d, xexp, prec);
    SignificantAreDigits('f', d, xexp, prec);
    BodyReads('f', s.digits, s.xexp, prec, alt);
    FixedDigitsOf(s.digits, s.xexp, prec);
    PlacesAreDigits(s.digits, s.xexp, Top(s.xexp), Top(s.xexp) + 1 + prec);
    LeadingPlace(d, xexp, prec);
  }

  /** No superfluous zero in front: above the units stands the first digit shown. */
  lemma LeadingPlace(d: seq<char>, xexp: int, prec: nat)
    requires AllDigits(d) && d != [] && d[0] != '0'
    ensures var s := Significant('f', d, xexp, prec);
      Top(s.xexp) > 0 ==> Places(s.digits, s.xexp, Top(s.xexp), Top(s.xexp) + 1)[0] != '0'
  {
    var nsig := Min(WantedDigits('f', xexp, prec), |d|);
    if nsig > 0 {
      RoundIsRounding(d, nsig);
      hide Round, Val, Nearest;
    }
  }

  /**
   '%e' as a whole, for every digit buffer: the text has the style of the standard, with 6
   places by default, and the number read back, exponent and sign included, is the argument
   rounded half up to the digits shown.
   */
  lemma PercentE(code: char, digits: seq<char>, xexp0: int, prec: int, alt: bool)
    requires Finite(digits, xexp0).Valid() && IsE(code)
    ensures var places, d := if prec < 0 then 6 else prec, Trimmed(digits, xexp0);
      var text := ConvertedText(code, Finite(digits, xexp0), prec, alt);
      && IsEStyle(Read(text), code, places, alt) && Read(text).whole[0] != '0'
      && ReadsAsRounded(text, d.digits, d.xexp, Min(places + 1, |d.digits|))
  {
    var places, d := EffectivePrec(code, prec), Trimmed(digits, xexp0);
    hide Trimmed, BodyText, Read, ReadExponent, IsEStyle, IsFStyle, ReadsAsRounded, LeadingZeros;
    ShownByE(code, d.digits, d.xexp, places);
    BodyRounds(code, d.digits, d.xexp, places, alt);
    var s := Significant(code, d.digits, d.xexp, places);
    hide Significant;
    BodyStyle(code, s.digits, s.xexp, places, alt);
  }

  lemma ShownByE(code: char, d: seq<char>, xexp: int, places: nat)
    requires IsE(code) && AllDigits(d) && d != [] && d[0] != '0'
    ensures var s := Significant(code, d, xexp, places);
      AllDigits(s.digits) && s.digits != [] && s.digits[0] != '0' && xexp <= s.xexp <= xexp + 1
  {
    SignificantIsRounded(code, d, xexp, places);
  }

  /** The fraction, if there is one, does not end in a zero. */
  predicate NoTrailingZero(r: Reading) {
    r.fraction == [] || r.fraction[|r.fraction| - 1] != '0'
  }

  /** The precision that 'g' works with: 6 by default, and 1 for 0. */
  function PrecisionOfG(prec: int): nat {
    if prec < 0 then 6 else if prec == 0 then 1 else prec
  }

  /**
   What the standard says of 'g' for precision P and exponent X: style 'f' if P > X >= -4, and
   style 'e' with exponent X if not; no trailing zeros without '#', which in style 'f' shows
   all P digits.
   */
  predicate IsGStyle(r: Reading, code: char, P: nat, X: int, alt: bool) {
    && (if P > X >= -4 then IsFStyle(r, |r.fraction|, alt) && (alt ==> |r.fraction| == P - 1 - X)
        else IsEStyle(r, if code == 'g' then 'e' else 'E', |r.fraction|, alt)
             && ReadExponent(r.tail) == X && r.whole[0] != '0')
    && (!alt ==> NoTrailingZero(r))
  }

  /**
   '%g' as a whole, for every digit buffer. With P for the precision and X for the exponent
   that '%e' prints for P - 1 places, the text has the style of the standard, except that '#'
   keeps all P digits in style 'e' only as `AlternateGKeepsZerosIff` says.
   */
  lemma PercentG(code: char, digits: seq<char>, xexp0: int, prec: int, alt: bool)
    requires Finite(digits, xexp0).Valid() && IsG(code)
    ensures IsGStyle(Read(ConvertedText(code, Finite(digits, xexp0), prec, alt)), code, PrecisionOfG(prec),
                     ExponentByE(digits, xexp0, PrecisionOfG(prec) - 1, alt), alt)
  {
    var P, d := PrecisionOfG(prec), Trimmed(digits, xexp0);
    hide Trimmed, LeadingZeros, BodyText, ConvertedText, Read, IsGStyle, Significant, ExponentByE;
    ByE(digits, xexp0, P - 1, alt);
    SameAsE(code, d.digits, d.xexp, P);
    FiniteText(code, digits, xexp0, prec, P, alt);
    GStyle(code, d.digits, d.xexp, P, alt);
  }

  /** The number read back is the argument rounded half up to P digits. */
  lemma PercentGRounds(code: char, digits: seq<char>, xexp0: int, prec: int, alt: bool)
    requires Finite(digits, xexp0).Valid() && IsG(code)
    ensures var P, d := PrecisionOfG(prec), Trimmed(digits, xexp0);
      ReadsAsRounded(ConvertedText(code, Finite(digits, xexp0), prec, alt), d.digits, d.xexp, Min(P, |d.digits|))
  {
    var P, d := PrecisionOfG(prec), Trimmed(digits, xexp0);
    hide Trimmed, LeadingZeros, BodyText, ConvertedText, ReadsAsRounded, Significant;
    FiniteText(code, digits, xexp0, prec, P, alt);
    BodyRounds(code, d.digits, d.xexp, P, alt);
  }

  /** The exponent that "%e" prints. */
  function ExponentByE(digits: seq<char>, xexp0: int, places: nat, alt: bool): int
    requires Finite(digits, xexp0).Valid()
  {
    ReadExponent(Read(ConvertedText('e', Finite(digits, xexp0), places, alt)).tail)
  }

  lemma ByE(digits: seq<char>, xexp0: int, places: nat, alt: bool)
    requires Finite(digits, xexp0).Valid()
    ensures var d := Trimmed(digits, xexp0);
      ExponentByE(digits, xexp0, places, alt) == Significant('e', d.digits, d.xexp, places).xexp
  {
    var d := Trimmed(digits, xexp0);
    ShownByE('e', d.digits, d.xexp, places);
    hide Trimmed, LeadingZeros, BodyText, ConvertedText, Read, ReadExponent, Significant;
    FiniteText('e', digits, xexp0, places, places, alt);
    ExponentOfE('e', Significant('e', d.digits, d.xexp, places), places, alt);
  }

  lemma FiniteText(code: char, digits: seq<char>, xexp0: int, prec: int, places: nat, alt: bool)
    requires Finite(digits, xexp0).Valid() && places == EffectivePrec(code, prec)
    ensures var d := Trimmed(digits, xexp0); var s := Significant(code, d.digits, d.xexp, places);
      && -10000 < s.xexp < 10000
      && ConvertedText(code, Finite(digits, xexp0), prec, alt) == BodyText(code, s.digits, s.xexp, places, alt)
  {
    var d := Trimmed(digits, xexp0);
    SignificantAreDigits(code, d.digits, d.xexp, places);
    hide Trimmed, LeadingZeros, BodyText, Significant;
  }

  lemma ExponentOfE(letter: char, s: Shown, places: nat, alt: bool)
    requires IsE(letter) && AllDigits(s.digits) && s.digits != [] && s.digits[0] != '0' && -10000 < s.xexp < 10000
    ensures ReadExponent(Read(BodyText(letter, s.digits, s.xexp, places, alt)).tail) == s.xexp
  {
    hide Read, ReadExponent, BodyText;
    BodyStyle(letter, s.digits, s.xexp, places, alt);
  }

  /** 'g' shows the digits and the exponent that 'e' shows with one place less. */
  lemma SameAsE(code: char, d: seq<char>, xexp: int, P: nat)
    requires IsG(code) && P > 0 && AllDigits(d) && d != []
    ensures Significant(code, d, xexp, P) == Significant('e', d, xexp, P - 1)
  {
  }

  lemma GStyle(code: char, d: seq<char>, xexp: int, P: nat, alt: bool)
    requires IsG(code) && P > 0 && AllDigits(d) && d != [] && d[0] != '0' && -9999 < xexp < 9999
    ensures var s := Significant(code, d, xexp, P);
      && -10000 < s.xexp < 10000
      && IsGStyle(Read(BodyText(code, s.digits, s.xexp, P, alt)), code, P, s.xexp, alt)
  {
    SignificantForG(code, d, xexp, P);
    GShowsNoTrailingZero(code, d, xexp, P);
    hide Round, Significant, Read, ReadExponent, BodyText;
    var s := Significant(code, d, xexp, P);
    BodyStyle(code, s.digits, s.xexp, P, alt);
    BodyReads(code, s.digits, s.xexp, P, alt);
  }

  /** What stands for no finite number is no number to a reader. */
  lemma NotNumbers(code: char, prec: int, alt: bool)
    ensures ConvertedText(code, NotANumber, prec, alt) == "NaN"
    ensures ConvertedText(code, Infinite, prec, alt) == "Inf"
    ensures Read("NaN").whole == [] && Read("Inf").whole == []
  {
  }

  /** Zero has the style of its conversion and reads back as zero. */
  lemma ZeroReads(code: char, prec: int, alt: bool)
    requires code == 'f' || IsE(code)
    ensures var places := if prec < 0 then 6 else prec;
      var r := Read(ConvertedText(code, Zero, prec, alt));
      && (if code == 'f' then IsFStyle(r, places, alt) else IsEStyle(r, code, places, alt) && ReadExponent(r.tail) == 0)
      && Val(DigitsOf(r)) == 0
  {
    var places := EffectivePrec(code, prec);
    BodyStyle(code, ['0'], 0, places, alt);
    BodyReads(code, ['0'], 0, places, alt);
    hide Val, Read, BodyText, IsFStyle, IsEStyle, ReadExponent;
    ZeroPlacesSplit(places);
  }

  lemma ZeroPlacesSplit(places: nat)
    ensures var zero := Places(['0'], 0, 0, 1) + Places(['0'], 0, -1, places);
      AllDigits(zero) && Val(zero) == 0
    ensures var m := Mantissa(['0'], places);
      m[..1] + m[1..] == Zeros(1 + places) && Val(Zeros(1 + places)) == 0
    ensures Places(['0'], 0, 0, 1) + Places(['0'], 0, -1, places) == Zeros(1 + places)
  {
    ValZeros(1 + places);
    assert Places(['0'], 0, 0, 1) + Places(['0'], 0, -1, places) == Zeros(1 + places);
  }
}
