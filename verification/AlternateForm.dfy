/**
 What section 7.19.6.1 of ISO/IEC 9899:1999 asks of the integer conversions, written from
 its wording alone, and exactly when `_Printf` prints that. They part ways under '#', and
 where a "%l" conversion extends the sign of an unsigned argument.
 */
module AlternateForm {
  import opened Common
  import opened Decimal
  import opened PrintField
  import opened IntegerText
  import opened Printf

  // ---- The text the standard asks for

  /** At least as many digits as the precision says, one without a precision. */
  function WithPrecision(digits: seq<char>, prec: int): seq<char> {
    var least := if prec < 0 then 1 else prec;
    if |digits| < least then Zeros(least - |digits|) + digits else digits
  }

  /** '0' fills the width with zeros behind the prefix, unless there is a precision or '-'. */
  function Filled(spec: Spec, prefix: seq<char>, digits: seq<char>): seq<char> {
    var used := |prefix| + |digits|;
    if spec.flags.zero && !spec.flags.minus && spec.prec < 0 && used < spec.width
    then prefix + Zeros(spec.width - used) + digits
    else prefix + digits
  }

  /** 'x' and 'X': under '#' a result that is not zero has "0x" or "0X" in front. */
  function StandardHex(spec: Spec, w: nat): seq<char> {
    var prefix := if spec.flags.hash && w != 0 then ['0', spec.code] else [];
    Filled(spec, prefix, WithPrecision(Digits(spec.code, w), spec.prec))
  }

  /** 'o': under '#' the precision goes up, if and only if necessary, so that the first digit is a zero. */
  function StandardOctal(spec: Spec, w: nat): seq<char> {
    var digits := WithPrecision(Digits(spec.code, w), spec.prec);
    var raised := if spec.flags.hash && (digits == [] || digits[0] != '0') then ['0'] + digits else digits;
    Filled(spec, [], raised)
  }

  /** 'u': the digits alone; with '#' the standard leaves it undefined. */
  function StandardDecimal(spec: Spec, w: nat): seq<char> {
    Filled(spec, [], WithPrecision(Digits(spec.code, w), spec.prec))
  }

  /** 'd' and 'i': a sign where there is one, and the digits of the magnitude. */
  function StandardSigned(spec: Spec, x: int): seq<char> {
    var sign := if x < 0 then ['-'] else if spec.flags.plus then ['+'] else if spec.flags.space then [' '] else [];
    Filled(spec, sign, WithPrecision(Digits(spec.code, if x < 0 then -x else x), spec.prec))
  }

  /** The value an unsigned argument stands for is lost if it is a "%l" one of 2^31 or more. */
  predicate SignExtended(qual: char, meant: int) {
    qual == 'l' && meant >= 0x8000_0000
  }

  predicate IsQual(qual: char) {
    qual == NUL || qual == 'h' || qual == 'l' || qual == 'L'
  }

  /** The word that the code converts; `PrintedWord` says when it is the argument's value. */
  function Word(spec: Spec, v: int): nat
    requires IsUnsignedCode(spec.code) && Matches(spec, IntArg(v))
  {
    Unsigned(spec.code, UnsignedValue(spec.qual, v))
  }

  // ---- What is printed

  /** The zeros asked for in `nz0` are those of the precision, or those that fill the width. */
  lemma ConversionFills(spec: Spec, code: char, prefix: seq<char>, ll: int)
    requires -TWO63 <= ll < TWO63
    ensures IntegerConversion(spec, code, prefix, ll)
         == Filled(spec, prefix, WithPrecision(Digits(code, Unsigned(code, ll)), spec.prec))
  {
    var w := Unsigned(code, ll);
    var digits, body := Magnitude(code, w, spec.prec), WithPrecision(Digits(code, w), spec.prec);
    if spec.prec < 0 {
      NoPrecision(code, w, spec.prec);
      hide Digits, Unsigned, Magnitude, WithPrecision;
      NoZerosBetween(prefix, digits);
    } else {
      PrecisionZeros(code, w, spec.prec);
      hide Digits, Unsigned, Magnitude, WithPrecision;
      Regroup(prefix, Zeros(|body| - |digits|), digits);
    }
  }

  lemma NoPrecision(code: char, w: nat, prec: int)
    requires prec < 0
    ensures WithPrecision(Digits(code, w), prec) == Magnitude(code, w, prec)
  {
    NoDigits(code);
    DigitsParseBack(code, w);
    hide Digits;
    assert Zeros(1) + [] == ['0'];
  }

  lemma NoZerosBetween(a: seq<char>, b: seq<char>)
    ensures a + Zeros(0) + b == a + b
  {
  }

  lemma PrecisionZeros(code: char, w: nat, prec: int)
    requires prec >= 0
    ensures var digits, body := Magnitude(code, w, prec), WithPrecision(Digits(code, w), prec);
      && |body| == (if |digits| < prec then prec else |digits|)
      && body == Zeros(|body| - |digits|) + digits
  {
    NoDigits(code);
    hide Digits;
    if w == 0 {
      assert prec > 0 ==> Zeros(prec) + [] == Zeros(prec - 1) + ['0'];
    } else {
      assert Zeros(0) + Digits(code, w) == Digits(code, w);
    }
  }

  lemma NoDigits(code: char)
    ensures Digits(code, 0) == []
  {
  }

  /** Signed conversions print what the standard asks for, for every argument. */
  lemma SignedIsStandard(spec: Spec, v: int)
    requires IsSignedCode(spec.code) && Matches(spec, IntArg(v))
    ensures Converted(spec, IntArg(v)) == StandardSigned(spec, SignedValue(spec.qual, v))
  {
    var ll := SignedValue(spec.qual, v);
    ConversionFills(spec, spec.code, Sign(ll < 0, spec.flags), ll);
    hide IntegerConversion, Digits, Filled, WithPrecision;
  }

  // ---- The value that a standard text spells

  lemma PrecisionParses(code: char, w: nat, prec: int)
    ensures Parse(Base(code), WithPrecision(Digits(code, w), prec)) == w
  {
    DigitsParseBack(code, w);
    hide Digits, Parse, Base;
    var missing := (if prec < 0 then 1 else prec) - |Digits(code, w)|;
    if missing > 0 {
      ParsePadded(Base(code), missing, Digits(code, w));
    }
  }

  lemma FilledParses(spec: Spec, base: nat, prefix: seq<char>, digits: seq<char>)
    ensures prefix <= Filled(spec, prefix, digits)
    ensures Parse(base, Filled(spec, prefix, digits)[|prefix|..]) == Parse(base, digits)
  {
    hide Parse;
    var n := spec.width - (|prefix| + |digits|);
    if n > 0 {
      ParsePadded(base, n, digits);
      Regroup(prefix, Zeros(n), digits);
      assert (prefix + (Zeros(n) + digits))[|prefix|..] == Zeros(n) + digits;
    }
    assert (prefix + digits)[|prefix|..] == digits;
  }

  lemma OctalParses(spec: Spec, w: nat)
    requires spec.code == 'o'
    ensures Parse(8, StandardOctal(spec, w)) == w
  {
    var digits := WithPrecision(Digits('o', w), spec.prec);
    var raised := if spec.flags.hash && (digits == [] || digits[0] != '0') then ['0'] + digits else digits;
    PrecisionParses('o', w, spec.prec);
    hide Parse, Digits, WithPrecision, Filled;
    LeadingZeroParses(8, digits);
    FilledParses(spec, 8, [], raised);
    assert StandardOctal(spec, w) == Filled(spec, [], raised)[0..];
  }

  lemma LeadingZeroParses(base: nat, s: seq<char>)
    ensures Parse(base, ['0'] + s) == Parse(base, s)
  {
    ParsePadded(base, 1, s);
    assert Zeros(1) == ['0'];
  }

  // ---- Without '#'

  lemma PrintsWord(spec: Spec, v: int)
    requires IsUnsignedCode(spec.code) && Matches(spec, IntArg(v)) && !spec.flags.hash
    ensures Converted(spec, IntArg(v)) == StandardDecimal(spec, Word(spec, v))
  {
    hide IntegerConversion, Digits, Unsigned, Filled, WithPrecision;
    ConversionFills(spec, spec.code, [], UnsignedValue(spec.qual, v));
  }

  /**
   Without '#' an unsigned conversion prints what the standard asks for if and only if its
   argument is not a "%l" one of 2^31 or more.
   */
  lemma WithoutHashIff(spec: Spec, v: int)
    requires IsUnsignedCode(spec.code) && Matches(spec, IntArg(v)) && IsQual(spec.qual) && !spec.flags.hash
    ensures var meant := UnsignedMeaning(spec.qual, v);
      Converted(spec, IntArg(v)) == StandardDecimal(spec, meant) <==> !SignExtended(spec.qual, meant)
  {
    var meant := UnsignedMeaning(spec.qual, v);
    PrintedWord(spec, v);
    if SignExtended(spec.qual, meant) {
      UnsignedPrintsMeaningIff(spec, v);
      RadixIsBase(spec.code);
      DecimalParses(spec, meant);
      hide Converted, StandardDecimal, Parse, Base, Radix, Unsigned, UnsignedMeaning, UnsignedValue;
      var text := Converted(spec, IntArg(v));
      assert text[|RadixPrefix(spec.flags, spec.code)|..] == text;
    } else {
      PrintsWord(spec, v);
    }
  }

  lemma DecimalParses(spec: Spec, w: nat)
    ensures Parse(Base(spec.code), StandardDecimal(spec, w)) == w
  {
    PrecisionParses(spec.code, w, spec.prec);
    hide Parse, Base, Digits, WithPrecision, Filled;
    FilledParses(spec, Base(spec.code), [], WithPrecision(Digits(spec.code, w), spec.prec));
    assert StandardDecimal(spec, w)[0..] == StandardDecimal(spec, w);
  }

  // ---- '#' with 'x'

  /** '%#x' prints what the standard asks for the word it converts if and only if that is not zero. */
  lemma HexOfWordIff(spec: Spec, v: int)
    requires (spec.code == 'x' || spec.code == 'X') && Matches(spec, IntArg(v))
    ensures Converted(spec, IntArg(v)) == StandardHex(spec, Word(spec, v))
       <==> !(spec.flags.hash && Word(spec, v) == 0)
  {
    hide IntegerConversion, Unsigned;
    var w := Word(spec, v);
    ConversionFills(spec, spec.code, RadixPrefix(spec.flags, spec.code), UnsignedValue(spec.qual, v));
    if spec.flags.hash && w == 0 {
      ZeroIsAllZeros(spec);
      hide Filled, WithPrecision, Digits;
      PrefixShows(spec, ['0', spec.code], WithPrecision(Digits(spec.code, w), spec.prec));
    }
  }

  /**
   '%x', with and without '#', prints what the standard asks for if and only if it is not
   '%#x' of zero and its argument not a "%l" one of 2^31 or more.
   */
  lemma AlternateHexIff(spec: Spec, v: int)
    requires (spec.code == 'x' || spec.code == 'X') && Matches(spec, IntArg(v)) && IsQual(spec.qual)
    ensures var meant := UnsignedMeaning(spec.qual, v);
      Converted(spec, IntArg(v)) == StandardHex(spec, meant)
      <==> !(spec.flags.hash && meant == 0) && !SignExtended(spec.qual, meant)
  {
    var meant := UnsignedMeaning(spec.qual, v);
    PrintedWord(spec, v);
    if SignExtended(spec.qual, meant) {
      UnsignedPrintsMeaningIff(spec, v);
      RadixIsBase(spec.code);
      PrecisionParses(spec.code, meant, spec.prec);
      hide Converted, Digits, Filled, WithPrecision, Parse, Base, Radix, Unsigned, UnsignedMeaning, UnsignedValue;
      FilledParses(spec, Base(spec.code), RadixPrefix(spec.flags, spec.code),
                   WithPrecision(Digits(spec.code, meant), spec.prec));
    } else {
      HexOfWordIff(spec, v);
    }
  }

  predicate OnlyZeros(s: seq<char>) {
    forall i :: 0 <= i < |s| ==> s[i] == '0'
  }

  lemma ZeroIsAllZeros(spec: Spec)
    ensures OnlyZeros(StandardHex(spec, 0)) && OnlyZeros(StandardOctal(spec, 0))
    ensures OnlyZeros(WithPrecision(Digits(spec.code, 0), spec.prec))
  {
  }

  lemma PrefixShows(spec: Spec, prefix: seq<char>, digits: seq<char>)
    requires |prefix| == 2 && prefix[1] != '0'
    ensures !OnlyZeros(Filled(spec, prefix, digits))
  {
    assert Filled(spec, prefix, digits)[1] == prefix[1];
  }

  // ---- '#' with 'o'

  /**
   When '%#o' prints no zero too many: the value's own digits reach the precision; or it is
   zero, and then the precision is 0 or '0' fills a width of two or more.
   */
  predicate OctalAgrees(flags: Flags, width: int, prec: int, w: nat) {
    || !flags.hash
    || (if w != 0 then prec <= |Digits('o', w)|
        else prec == 0 || (prec < 0 && flags.zero && !flags.minus && width >= 2))
  }

  /**
   '%o', with and without '#', prints what the standard asks for if and only if flags, width,
   precision and value say so and its argument is not a "%l" one of 2^31 or more.
   */
  lemma AlternateOctalIff(spec: Spec, v: int)
    requires spec.code == 'o' && Matches(spec, IntArg(v)) && IsQual(spec.qual)
    ensures var meant := UnsignedMeaning(spec.qual, v);
      Converted(spec, IntArg(v)) == StandardOctal(spec, meant)
      <==> OctalAgrees(spec.flags, spec.width, spec.prec, meant) && !SignExtended(spec.qual, meant)
  {
    var meant := UnsignedMeaning(spec.qual, v);
    PrintedWord(spec, v);
    if SignExtended(spec.qual, meant) {
      UnsignedPrintsMeaningIff(spec, v);
      OctalParses(spec, meant);
      var text := Converted(spec, IntArg(v));
      assert Radix('o') == 8;
      hide Converted, StandardOctal, Parse, Radix, Unsigned, UnsignedMeaning, UnsignedValue, OctalAgrees;
      if spec.flags.hash {
        LeadingZeroParses(8, text[1..]);
        assert text == ['0'] + text[1..];
      } else {
        assert text == text[0..];
      }
    } else {
      OctalOfWordIff(spec, v);
    }
  }

  lemma OctalOfWordIff(spec: Spec, v: int)
    requires spec.code == 'o' && Matches(spec, IntArg(v))
    ensures Converted(spec, IntArg(v)) == StandardOctal(spec, Word(spec, v))
       <==> OctalAgrees(spec.flags, spec.width, spec.prec, Word(spec, v))
  {
    hide IntegerConversion, Unsigned;
    var w := Word(spec, v);
    ConversionFills(spec, 'o', RadixPrefix(spec.flags, 'o'), UnsignedValue(spec.qual, v));
    DigitsParseBack('o', w);
    hide Digits;
    if spec.flags.hash {
      if w == 0 {
        OctalZero(spec);
      } else {
        OctalPositive(spec, Digits('o', w));
      }
    }
  }

  lemma OctalZero(spec: Spec)
    requires spec.code == 'o' && spec.flags.hash
    ensures Filled(spec, ['0'], WithPrecision([], spec.prec)) == StandardOctal(spec, 0)
       <==> OctalAgrees(spec.flags, spec.width, spec.prec, 0)
  {
    var digits := WithPrecision([], spec.prec);
    assert OnlyZeros(digits) && OnlyZeros(Filled(spec, ['0'], digits)) && OnlyZeros(StandardOctal(spec, 0));
    SameZerosIff(Filled(spec, ['0'], digits), StandardOctal(spec, 0));
  }

  lemma SameZerosIff(a: seq<char>, b: seq<char>)
    requires OnlyZeros(a) && OnlyZeros(b)
    ensures a == b <==> |a| == |b|
  {
  }

  lemma OctalPositive(spec: Spec, digits: seq<char>)
    requires digits != [] && digits[0] != '0'
    ensures var printed := Filled(spec, ['0'], WithPrecision(digits, spec.prec));
      var body := WithPrecision(digits, spec.prec);
      var due := Filled(spec, [], if body[0] != '0' then ['0'] + body else body);
      printed == due <==> spec.prec <= |digits|
  {
    var body := WithPrecision(digits, spec.prec);
    if spec.prec <= |digits| {
      assert body == digits;
      FillBehindZero(spec, digits);
    } else {
      assert |Filled(spec, ['0'], body)| == |body| + 1 && |Filled(spec, [], body)| == |body|;
    }
  }

  /** A zero in front of the digits may as well be one of those that fill the width. */
  lemma FillBehindZero(spec: Spec, digits: seq<char>)
    ensures Filled(spec, ['0'], digits) == Filled(spec, [], ['0'] + digits)
  {
    var n := spec.width - (1 + |digits|);
    if n > 0 {
      assert ['0'] + Zeros(n) + digits == [] + Zeros(n) + (['0'] + digits);
    }
  }

  // ---- Inputs at which they part

  const HASH := Flags(false, false, false, true, false)

  lemma EightIsTen()
    ensures Digits('o', 8) == "10" && Digits('x', 0) == [] && Digits('o', 0) == []
  {
    assert Digits('o', 1) == ['1'];
  }

  /** "%lu" of 2^31 prints 18446744071562067968. */
  lemma LongExtendsItsSign()
    ensures var spec := Spec(NO_FLAGS, 0, -1, 'l', 'u'); var v := -0x8000_0000;
      && UnsignedMeaning('l', v) == 0x8000_0000
      && Parse(10, Converted(spec, IntArg(v))) == 18446744071562067968
      && Converted(spec, IntArg(v)) != StandardDecimal(spec, 0x8000_0000)
  {
    var spec, v := Spec(NO_FLAGS, 0, -1, 'l', 'u'), -0x8000_0000;
    hide Parse, Converted, StandardDecimal;
    assert UnsignedMeaning('l', v) == 0x8000_0000;
    UnsignedPrintsMeaningIff(spec, v);
    WithoutHashIff(spec, v);
    var text := Converted(spec, IntArg(v));
    assert text[|RadixPrefix(spec.flags, 'u')|..] == text;
  }

  /** "%#.5o" of 8 prints six digits where the precision asks for five. */
  lemma OctalPrintsOneZeroTooMany()
    ensures var spec := Spec(HASH, 0, 5, NUL, 'o');
      Converted(spec, IntArg(8)) == "000010" && StandardOctal(spec, 8) == "00010"
  {
    var spec := Spec(HASH, 0, 5, NUL, 'o');
    EightIsTen();
    ConversionFills(spec, 'o', ['0'], 8);
    hide Digits, IntegerConversion;
    assert Word(spec, 8) == 8;
    assert WithPrecision("10", 5) == "00010" by {
      assert Zeros(3) == "000";
    }
    assert Converted(spec, IntArg(8)) == ['0'] + "00010";
  }

  /** "%#x" of 0 prints "0x0" where "0" is due. */
  lemma HexPrefixesZero()
    ensures var spec := Spec(HASH, 0, -1, NUL, 'x');
      Converted(spec, IntArg(0)) == "0x0" && StandardHex(spec, 0) == "0"
  {
    var spec := Spec(HASH, 0, -1, NUL, 'x');
    EightIsTen();
    ConversionFills(spec, 'x', ['0', 'x'], 0);
    assert Zeros(1) + [] == "0" && ['0', 'x'] + "0" == "0x0";
  }

  /** "%#o" of 0 prints "00" where "0" is due. */
  lemma OctalPrefixesZero()
    ensures var spec := Spec(HASH, 0, -1, NUL, 'o');
      Converted(spec, IntArg(0)) == "00" && StandardOctal(spec, 0) == "0"
  {
    var spec := Spec(HASH, 0, -1, NUL, 'o');
    EightIsTen();
    ConversionFills(spec, 'o', ['0'], 0);
    assert Zeros(1) + [] == "0" && ['0'] + "0" == "00";
  }
}
