/**
 What section 7.19.6.1 of ISO/IEC 9899:1999 asks of signs and zeros around floating
 numbers, of strings and of characters, and that `_Printf` prints it.
 */
module OtherConversions {
  import opened Common
  import opened Decimal
  import opened FloatText
  import opened PrintField
  import opened FloatLayout
  import opened Printf

  /** '-' of a negative number, or else '+' or a space where the flags ask for one. */
  function StandardSign(negative: bool, flags: Flags): seq<char> {
    if negative then "-" else if flags.plus then "+" else if flags.space then " " else ""
  }

  /**
   A floating conversion is a sign, zeros and the text of its magnitude (see `PercentF`,
   `PercentE` and `PercentG`). There are zeros only under '0' without '-', and only in a
   number: just as many as fill the width.
   */
  lemma FloatIsSignedAndFilled(spec: Spec, negative: bool, v: FloatClass)
    requires IsFloatCode(spec.code) && Matches(spec, FloatArg(negative, v))
    ensures var sign := StandardSign(negative, spec.flags);
      var body := ConvertedText(spec.code, v, spec.prec, spec.flags.hash);
      var missing := spec.width - |sign| - |body|;
      Converted(spec, FloatArg(negative, v))
      == if spec.flags.zero && !spec.flags.minus && !v.NotANumber? && !v.Infinite? && missing > 0
         then sign + Zeros(missing) + body else sign + body
  {
    hide ConvertedText;
    var sign, body := StandardSign(negative, spec.flags), ConvertedText(spec.code, v, spec.prec, spec.flags.hash);
    assert sign == Sign(negative, spec.flags) && sign + Zeros(0) + body == sign + body;
  }

  /** A string is printed up to its NUL, but no more of it than the precision says. */
  lemma StringIsCut(spec: Spec, s: seq<char>)
    requires spec.code == 's' && NUL in s
    ensures var text := Converted(spec, StrArg(s));
      && text <= s && NUL !in text && |text| < |s|
      && (spec.prec >= 0 ==> |text| <= spec.prec)
      && (s[|text|] == NUL || |text| == spec.prec)
  {
  }

  /** A character is the argument as an unsigned byte, and a '%' is itself. */
  lemma CharacterIsByte(spec: Spec, v: int)
    requires spec.code == 'c' && Matches(spec, IntArg(v))
    ensures |Converted(spec, IntArg(v))| == 1
    ensures var c := Converted(spec, IntArg(v))[0] as int; 0 <= c < 0x100 && (v - c) % 0x100 == 0
  {
  }
}
