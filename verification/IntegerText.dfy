/** `_Litob`: writing an integer in base 8, 10 or 16, backwards into a small buffer. */
module IntegerText {
  import opened Arith
  import opened Decimal
  import opened PrintField

  const BUFF_LEN: nat := 24
  const TWO64: int := 0x1_0000_0000_0000_0000
  const TWO63: int := 0x8000_0000_0000_0000

  const LOWER := "0123456789abcdef"
  const UPPER := "0123456789ABCDEF"

  function DigitTable(code: char): (t: seq<char>)
    ensures |t| == 16
  {
    if code == 'X' then UPPER else LOWER
  }

  function Base(code: char): (b: nat)
    ensures b in {8, 10, 16}
  {
    if code == 'o' then 8 else if code != 'x' && code != 'X' then 10 else 16
  }

  /** What digit a character stands for, in either case; 16 for none. */
  function DigitOf(c: char): nat {
    if '0' <= c <= '9' then c as int - '0' as int
    else if 'a' <= c <= 'f' then c as int - 'a' as int + 10
    else if 'A' <= c <= 'F' then c as int - 'A' as int + 10
    else 16
  }

  /** The digit tables are what `DigitOf` undoes. */
  lemma TableInverse(code: char, v: nat)
    requires v < 16
    ensures DigitOf(DigitTable(code)[v]) == v
  {
  }

  /** Reading digits of a base, most significant first. */
  function Parse(base: nat, s: seq<char>): nat {
    if s == [] then 0 else Parse(base, s[..|s| - 1]) * base + DigitOf(s[|s| - 1])
  }

  /** The digits of `v`, none for 0. */
  function Digits(code: char, v: nat): seq<char>
    decreases v
  {
    if v == 0 then []
    else
      QuotientSmaller(v, Base(code));
      Digits(code, v / Base(code)) + [DigitTable(code)[v % Base(code)]]
  }

  lemma QuotientSmaller(v: nat, base: nat)
    requires v > 0 && base >= 2
    ensures v / base < v
  {
    DivMod(v, base);
    MulMonotone(2, base, v / base);
  }

  /** What the conversion writes: 0 has one digit unless the precision is 0. */
  function Magnitude(code: char, v: nat, prec: int): seq<char> {
    if v == 0 then (if prec != 0 then ['0'] else []) else Digits(code, v)
  }

  lemma {:induction false} DigitsParseBack(code: char, v: nat)
    ensures Parse(Base(code), Digits(code, v)) == v
    ensures v > 0 ==> Digits(code, v) != [] && Digits(code, v)[0] != '0'
  {
    if v == 0 {
    } else {
      var b := Base(code);
      QuotientSmaller(v, b);
      DigitsParseBack(code, v / b);
      TableInverse(code, v % b);
      DivMod(v, b);
      assert Digits(code, v)[..|Digits(code, v)| - 1] == Digits(code, v / b);
    }
  }

  /** A digit of a base, in the letters that the conversion asks for. */
  predicate IsDigitOf(c: char, code: char) {
    if code == 'o' then '0' <= c <= '7'
    else if code == 'x' then '0' <= c <= '9' || 'a' <= c <= 'f'
    else if code == 'X' then '0' <= c <= '9' || 'A' <= c <= 'F'
    else '0' <= c <= '9'
  }

  /** 'o' is octal, 'x' and 'X' are hexadecimal in their own letters, and the others are decimal. */
  lemma {:induction false} DigitsAreInBase(code: char, v: nat)
    ensures forall i :: 0 <= i < |Digits(code, v)| ==> IsDigitOf(Digits(code, v)[i], code)
    ensures code == 'o' ==> Parse(8, Digits(code, v)) == v
    ensures code == 'x' || code == 'X' ==> Parse(16, Digits(code, v)) == v
    ensures code != 'o' && code != 'x' && code != 'X' ==> Parse(10, Digits(code, v)) == v
  {
    DigitsParseBack(code, v);
    if v == 0 {
    } else {
      QuotientSmaller(v, Base(code));
      DigitsAreInBase(code, v / Base(code));
      DivMod(v, Base(code));
      hide Parse;
      DigitIsInBase(code, v % Base(code));
    }
  }

  lemma DigitIsInBase(code: char, d: nat)
    requires d < Base(code)
    ensures IsDigitOf(DigitTable(code)[d], code)
  {
  }

  /** `n` digits need a number of at least `base^(n - 1)`. */
  lemma {:induction false} DigitsLength(code: char, v: nat)
    requires v > 0
    ensures |Digits(code, v)| >= 1 && Pow(Base(code), |Digits(code, v)| - 1) <= v
  {
    var b := Base(code);
    QuotientSmaller(v, b);
    DivMod(v, b);
    if v / b > 0 {
      DigitsLength(code, v / b);
      MulMonotone(Pow(b, |Digits(code, v / b)| - 1), v / b, b);
    }
  }

  lemma {:induction false} PowGrowsWithBase(a: nat, b: nat, n: nat)
    requires 0 < a <= b
    ensures Pow(a, n) <= Pow(b, n)
  {
    if n == 0 {
    } else {
      PowGrowsWithBase(a, b, n - 1);
      MulMonotone(Pow(a, n - 1), Pow(b, n - 1), a);
      MulMonotone(a, b, Pow(b, n - 1));
    }
  }

  lemma {:induction false} EightPower(n: nat)
    requires n <= 22
    ensures Pow(8, n) == [0x1, 0x8, 0x40, 0x200, 0x1000, 0x8000, 0x4_0000, 0x20_0000, 0x100_0000, 0x800_0000,
      0x4000_0000, 0x2_0000_0000, 0x10_0000_0000, 0x80_0000_0000, 0x400_0000_0000, 0x2000_0000_0000,
      0x1_0000_0000_0000, 0x8_0000_0000_0000, 0x40_0000_0000_0000, 0x200_0000_0000_0000, 0x1000_0000_0000_0000,
      0x8000_0000_0000_0000, 0x4_0000_0000_0000_0000][n]
  {
    if n == 0 {
    } else {
      EightPower(n - 1);
    }
  }

  lemma {:induction false} EightPowersGrow(a: nat, b: nat)
    requires a <= b
    ensures Pow(8, a) <= Pow(8, b)
  {
    if a >= b {
    } else {
      EightPowersGrow(a, b - 1);
    }
  }

  /** A 64-bit value never needs more than 22 of the 24 cells. */
  lemma DigitsFit(code: char, v: nat)
    requires v < TWO64
    ensures |Digits(code, v)| <= 22
  {
    var n := |Digits(code, v)|;
    if n > 22 {
      DigitsLength(code, v);
      PowGrowsWithBase(8, Base(code), n - 1);
      EightPowersGrow(22, n - 1);
      EightPower(22);
    }
  }

  /** The zero padding: up to the precision, or without one up to the width if '0' asks for it. */
  function IntegerZeros(flags: Flags, width: int, prec: int, n0: nat, digits: nat): nat {
    if digits < prec then prec - digits
    else if prec < 0 && flags.zero && !flags.minus && width - n0 - digits > 0 then width - n0 - digits
    else 0
  }

  /** Padding with zeros leaves the number what it was. */
  lemma {:induction false} ParsePadded(base: nat, z: nat, s: seq<char>)
    ensures Parse(base, Zeros(z) + s) == Parse(base, s)
    decreases |s|, z
  {
    if s == [] {
      assert Zeros(z) + s == Zeros(z);
      if z > 0 {
        assert Zeros(z)[..z - 1] == Zeros(z - 1) + s;
        ParsePadded(base, z - 1, s);
      }
    } else {
      ParsePadded(base, z, s[..|s| - 1]);
      assert (Zeros(z) + s)[..|Zeros(z) + s| - 1] == Zeros(z) + s[..|s| - 1];
    }
  }

  /** The argument as `_Litob` reads it: a 64-bit word, negated for a negative 'd' or 'i'. */
  function Unsigned(code: char, ll: int): nat
    requires -TWO63 <= ll < TWO64
  {
    if (code == 'd' || code == 'i') && ll < 0 then -ll else if ll < 0 then ll + TWO64 else ll
  }

  /**
   The digit loop of `_Litob`: divides the value down and writes its digits backwards
   into 24 cells. The guard against running out of cells never cuts a number short.
   */
  method WriteDigits(code: char, ullval: nat, prec: int) returns (buff: array<char>, i: nat)
    requires ullval < TWO64
    ensures fresh(buff) && i <= buff.Length == BUFF_LEN
    ensures buff[i..] == Magnitude(code, ullval, prec) && BUFF_LEN - i <= 22
  {
    var digs, base := DigitTable(code), Base(code);
    buff, i := new char[BUFF_LEN], BUFF_LEN;
    ghost var target := Magnitude(code, ullval, prec);
    DigitsFit(code, ullval);
    assert |target| <= 22;
    assert ullval == 0 && prec == 0 ==> target == [];
    DivMod(ullval, base);
    hide DigitTable, Base, Magnitude;
    if ullval != 0 || prec != 0 {
      i := i - 1;
      buff[i] := digs[ullval % base];
      FirstDigit(code, ullval, prec);
    }
    var rest: nat := ullval / base;
    assert Digits(code, rest) + buff[i..] == target;
    while rest > 0 && i > 0
      invariant i <= BUFF_LEN
      invariant Digits(code, rest) + buff[i..] == target
      decreases rest
    {
      QuotientSmaller(rest, base);
      DivMod(rest, base);
      i := i - 1;
      PutBefore(buff, i, digs[rest % base]);
      rest := rest / base;
    }
  }

  /** One more character in front of those written so far. */
  method PutBefore(buff: array<char>, i: nat, c: char)
    requires i < buff.Length
    modifies buff
    ensures buff[i..] == [c] + old(buff[i + 1..])
  {
    buff[i] := c;
  }

  /** The last digit, and the rest of the digits. */
  lemma FirstDigit(code: char, v: nat, prec: int)
    requires v != 0 || prec != 0
    ensures Magnitude(code, v, prec) == Digits(code, v / Base(code)) + [DigitTable(code)[v % Base(code)]]
  {
  }

  /** `_Litob`: the digits go behind the prefix, and zeros are asked for in `nz0`. */
  method Litob(px: Pft, code: char, ll: int)
    requires px.Cleared() && px.off <= 2 && -TWO63 <= ll < TWO63
    modifies px`nz0, px`n1, px.ac
    ensures px.InBuffer() && px.Prefix() == old(px.Prefix())
    ensures px.Body() == Magnitude(code, Unsigned(code, ll), px.prec)
    ensures px.nz0 == IntegerZeros(px.flags, px.width, px.prec, px.n0, |px.Body()|)
  {
    hide Magnitude, Pft.First, Pft.Second, Pft.Prefix;
    var buff, i := WriteDigits(code, Unsigned(code, ll), px.prec);
    px.AddFirst(buff[i..]);
    Plain(px, buff[i..]);
    hide Pft.Body;
    if px.n1 < px.prec {
      px.nz0 := px.prec - px.n1;
    }
    if px.prec < 0 && px.flags.zero && !px.flags.minus {
      var pad := px.width - px.n0 - px.nz0 - px.n1;
      if pad > 0 {
        px.nz0 := px.nz0 + pad;
      }
    }
  }

  lemma Plain(px: Pft, a: seq<char>)
    requires px.Valid() && px.First() == a && px.Second() == [] && px.nz1 == 0 && px.nz2 == 0
    ensures px.Body() == a && px.n1 == |a|
  {
  }

  /** The digits written, zero padding included, read back as the magnitude. */
  lemma IntegerParsesBack(code: char, v: nat, prec: int, zeros: nat)
    ensures Parse(Base(code), Zeros(zeros) + Magnitude(code, v, prec)) == v
    ensures v > 0 ==> Magnitude(code, v, prec) != [] && Magnitude(code, v, prec)[0] != '0'
    ensures Magnitude(code, v, prec) == [] <==> v == 0 && prec == 0
  {
    DigitsParseBack(code, v);
    ParsePadded(Base(code), zeros, Magnitude(code, v, prec));
    if v == 0 && prec != 0 {
      assert ['0'][..0] == [];
    }
  }
}
