/**
 What a format means, piece by piece and without a cursor: literal text, and directives of
 section 7.19.6.1 of ISO/IEC 9899:1999 that take their arguments in turn. `_Printf` prints
 just that for every format so spelled.
 */
module FormatText {
  import opened Common
  import opened Decimal
  import opened PrintField
  import opened Printf

  // ---- Formats

  /** The conversions that the standard and the code share, and "%%". */
  predicate IsCode(c: char) {
    || c == 'd' || c == 'i' || c == 'o' || c == 'u' || c == 'x' || c == 'X' || c == 'c' || c == 's' || c == 'p'
    || c == 'e' || c == 'E' || c == 'f' || c == 'g' || c == 'G' || c == 'n' || c == '%'
  }

  datatype Width = NoWidth | WidthDigits(s: seq<char>) | WidthStar

  datatype Precision = NoPrecision | PrecisionDigits(s: seq<char>) | PrecisionStar

  datatype Qualifier = NoQualifier | Half | Long | LongLong | LongDouble

  datatype Piece =
    | Literal(s: seq<char>)
    | Directive(flags: seq<char>, width: Width, precision: Precision, qual: Qualifier, code: char)
  {
    predicate Valid() {
      match this
      case Literal(s) => NUL !in s && '%' !in s
      case Directive(flags, width, precision, qual, code) =>
        && (forall i :: 0 <= i < |flags| ==>
              flags[i] == ' ' || flags[i] == '+' || flags[i] == '-' || flags[i] == '#' || flags[i] == '0')
        && (width.WidthDigits? ==> AllDigits(width.s) && width.s != [] && width.s[0] != '0')
        && (precision.PrecisionDigits? ==> AllDigits(precision.s))
        && IsCode(code)
    }

    /** How many arguments "*" takes. */
    function Stars(): nat
      requires Directive?
    {
      (if width.WidthStar? then 1 else 0) + (if precision.PrecisionStar? then 1 else 0)
    }

    /** How many arguments the piece takes: one for each "*" and, except for "%%", one to convert. */
    function Takes(): nat {
      if Literal? then 0 else Stars() + if code == '%' then 0 else 1
    }
  }

  function SpellWidth(w: Width): seq<char> {
    match w
    case NoWidth => []
    case WidthDigits(s) => s
    case WidthStar => ['*']
  }

  function SpellPrecision(p: Precision): seq<char> {
    match p
    case NoPrecision => []
    case PrecisionDigits(s) => ['.'] + s
    case PrecisionStar => ['.', '*']
  }

  function SpellQualifier(q: Qualifier): seq<char> {
    match q
    case NoQualifier => []
    case Half => ['h']
    case Long => ['l']
    case LongLong => ['l', 'l']
    case LongDouble => ['L']
  }

  /** How a qualifier is noted: "ll" and "L" alike. */
  function Noted(q: Qualifier): char {
    match q
    case NoQualifier => NUL
    case Half => 'h'
    case Long => 'l'
    case LongLong => 'L'
    case LongDouble => 'L'
  }

  function Spell(p: Piece): seq<char> {
    match p
    case Literal(s) => s
    case Directive(flags, width, precision, qual, code) =>
      ['%'] + flags + SpellWidth(width) + SpellPrecision(precision) + SpellQualifier(qual) + [code]
  }

  function SpellAll(ps: seq<Piece>): seq<char> {
    if ps == [] then [] else Spell(ps[0]) + SpellAll(ps[1..])
  }

  // ---- What they print

  /** The number a "*" at argument `k` stands for. */
  function StarValue(args: seq<Arg>, k: nat): int {
    if k < |args| && args[k].IntArg? then args[k].v else 0
  }

  function WidthOf(p: Piece, args: seq<Arg>, k: nat): int
    requires p.Directive? && p.Valid()
  {
    match p.width
    case NoWidth => 0
    case WidthDigits(s) => Number(s)
    case WidthStar => StarValue(args, k)
  }

  /** The precision, whose "*" comes behind that of the width. */
  function PrecisionOf(p: Piece, args: seq<Arg>, k: nat): int
    requires p.Directive? && p.Valid()
  {
    match p.precision
    case NoPrecision => -1
    case PrecisionDigits(s) => Number(s)
    case PrecisionStar => StarValue(args, if p.width.WidthStar? then k + 1 else k)
  }

  /** The directive at arguments `k ..`; a negative width means '-'. */
  function SpecFor(p: Piece, args: seq<Arg>, k: nat): Spec
    requires p.Directive? && p.Valid()
  {
    var w := WidthOf(p, args, k);
    Spec(Flags(' ' in p.flags, '+' in p.flags, '-' in p.flags || w < 0, '#' in p.flags, '0' in p.flags),
         if w < 0 then -w else w, PrecisionOf(p, args, k), Noted(p.qual), p.code)
  }

  /** The arguments from `k` on are there and of the types that the piece takes. */
  predicate ArgsFit(p: Piece, args: seq<Arg>, k: nat)
    requires p.Valid()
  {
    p.Directive? ==>
      && k + p.Takes() <= |args|
      && (forall j :: k <= j < k + p.Stars() ==> args[j].IntArg?)
      && (p.code != '%' ==> Matches(SpecFor(p, args, k), args[k + p.Stars()]))
  }

  predicate AllFit(ps: seq<Piece>, args: seq<Arg>, k: nat) {
    ps == [] || (ps[0].Valid() && ArgsFit(ps[0], args, k) && AllFit(ps[1..], args, k + ps[0].Takes()))
  }

  /** The text of one piece: it converts the argument behind those of its "*". */
  function TextOf(p: Piece, args: seq<Arg>, k: nat): seq<char>
    requires p.Valid() && ArgsFit(p, args, k)
  {
    if p.Literal? then p.s
    else if p.code == '%' then Padded(SpecFor(p, args, k), ['%'])
    else Padded(SpecFor(p, args, k), Converted(SpecFor(p, args, k), args[k + p.Stars()]))
  }

  /** The texts of the pieces one behind the other, each with the arguments that are its turn. */
  function AllTexts(ps: seq<Piece>, args: seq<Arg>, k: nat): seq<char>
    requires AllFit(ps, args, k)
  {
    if ps == [] then [] else TextOf(ps[0], args, k) + AllTexts(ps[1..], args, k + ps[0].Takes())
  }

  /** What each "%n" stores: the length of all text before it, in as many bits as its qualifier names. */
  function AllCounts(ps: seq<Piece>, args: seq<Arg>, k: nat, n: nat): seq<nat>
    requires AllFit(ps, args, k)
  {
    if ps == [] then []
    else
      (if ps[0].Directive? && ps[0].code == 'n' then [n % CountSpan(ps[0].qual)] else [])
      + AllCounts(ps[1..], args, k + ps[0].Takes(), n + |TextOf(ps[0], args, k)|)
  }

  function CountSpan(q: Qualifier): (span: nat)
    ensures span > 0
  {
    if q.Half? then 0x1_0000 else if q.LongLong? || q.LongDouble? then 0x1_0000_0000_0000_0000 else 0x1_0000_0000
  }

  // ---- Reading a directive

  lemma {:induction false} EndOfFlagsIs(fmt: seq<char>, i: nat, j: nat)
    requires i <= j <= |fmt| && !IsFlag(CharAt(fmt, j))
    requires forall x :: i <= x < j ==> IsFlag(fmt[x])
    ensures EndOfFlags(fmt, i) == j
    decreases j - i
  {
    if i == j {
    } else {
      EndOfFlagsIs(fmt, i + 1, j);
    }
  }

  lemma {:induction false} EndOfDigitsIs(fmt: seq<char>, i: nat, j: nat)
    requires i <= j <= |fmt| && !IsDigit(CharAt(fmt, j))
    requires forall x :: i <= x < j ==> IsDigit(fmt[x])
    ensures EndOfDigits(fmt, i) == j
    decreases j - i
  {
    if i == j {
    } else {
      EndOfDigitsIs(fmt, i + 1, j);
    }
  }

  /** Where the parts of a directive stand in a format. */
  datatype Layout = Layout(flags: nat, width: nat, precision: nat, qual: nat, code: nat)

  ghost predicate StandsAt(fmt: seq<char>, p: Piece, l: Layout)
    requires p.Directive?
  {
    && l.flags <= l.width <= l.precision <= l.qual <= l.code < |fmt|
    && fmt[l.flags..l.width] == p.flags
    && fmt[l.width..l.precision] == SpellWidth(p.width)
    && fmt[l.precision..l.qual] == SpellPrecision(p.precision)
    && fmt[l.qual..l.code] == SpellQualifier(p.qual)
    && fmt[l.code] == p.code
  }

  /** A character that may follow flags, width and precision. */
  predicate IsQualOrCode(c: char) {
    c == 'h' || c == 'l' || c == 'L' || IsCode(c)
  }

  lemma QualOrCode(fmt: seq<char>, p: Piece, l: Layout)
    requires p.Directive? && p.Valid() && StandsAt(fmt, p, l)
    ensures IsQualOrCode(fmt[l.qual])
    ensures QualAt(fmt, l.qual) == Noted(p.qual) && AfterQual(fmt, l.qual) == l.code
  {
    var s := fmt[l.qual..l.code];
    assert |s| > 0 ==> fmt[l.qual] == s[0];
    assert |s| > 1 ==> fmt[l.qual + 1] == s[1];
  }

  /** The precision at its place, with its "*" at argument `k'`. */
  lemma PrecisionIs(fmt: seq<char>, args: seq<Arg>, p: Piece, l: Layout, k: nat, flags: Flags)
    requires p.Directive? && p.Valid() && StandsAt(fmt, p, l) && IsQualOrCode(fmt[l.qual])
    requires p.precision.PrecisionStar? ==> HasInt(args, if p.width.WidthStar? then k + 1 else k)
    ensures var k' := if p.width.WidthStar? then k + 1 else k;
      ReadPrec(fmt, args, Cursor(l.precision, k'), flags)
      == Some(Field(PrecisionOf(p, args, k), flags, Cursor(l.qual, k + p.Stars())))
  {
    hide Number, EndOfDigits;
    var s := fmt[l.precision..l.qual];
    if p.precision.PrecisionDigits? {
      DigitsBehindPoint(fmt, l.precision, l.qual, p.precision.s);
    } else {
      assert |s| > 0 ==> fmt[l.precision] == s[0];
      assert |s| > 1 ==> fmt[l.precision + 1] == s[1];
    }
  }

  lemma DigitsBehindPoint(fmt: seq<char>, i: nat, j: nat, digits: seq<char>)
    requires i <= j < |fmt| && fmt[i..j] == ['.'] + digits && AllDigits(digits) && IsQualOrCode(fmt[j])
    ensures fmt[i] == '.' && fmt[i + 1] != '*'
    ensures EndOfDigits(fmt, i + 1) == j && DigitsAt(fmt, i + 1) == digits
  {
    hide EndOfDigits;
    var s := fmt[i..j];
    assert fmt[i] == s[0] && fmt[i + 1..j] == s[1..] == digits;
    assert forall x :: i + 1 <= x < j ==> fmt[x] == digits[x - (i + 1)];
    EndOfDigitsIs(fmt, i + 1, j);
  }

  lemma PrecisionStarts(fmt: seq<char>, p: Piece, l: Layout)
    requires p.Directive? && p.Valid() && StandsAt(fmt, p, l) && IsQualOrCode(fmt[l.qual])
    ensures fmt[l.precision] == '.' || IsQualOrCode(fmt[l.precision])
  {
    var s := fmt[l.precision..l.qual];
    assert |s| > 0 ==> fmt[l.precision] == s[0];
  }

  lemma WidthIs(fmt: seq<char>, args: seq<Arg>, p: Piece, l: Layout, k: nat, flags: Flags)
    requires p.Directive? && p.Valid() && StandsAt(fmt, p, l)
    requires fmt[l.precision] == '.' || IsQualOrCode(fmt[l.precision])
    requires p.width.WidthStar? ==> HasInt(args, k)
    ensures var w := WidthOf(p, args, k);
      ReadWidth(fmt, args, Cursor(l.width, k), flags)
      == Some(Field(if w < 0 then -w else w, if w < 0 then flags.(minus := true) else flags,
                    Cursor(l.precision, if p.width.WidthStar? then k + 1 else k)))
    ensures !IsFlag(fmt[l.width])
  {
    hide Number, EndOfDigits;
    var s := fmt[l.width..l.precision];
    match p.width
    case NoWidth =>
      EndOfDigitsIs(fmt, l.width, l.width);
      assert fmt[l.width..l.width] == [];
      NoNumber([]);
    case WidthDigits(digits) =>
      assert forall x :: l.width <= x < l.precision ==> fmt[x] == s[x - l.width];
      EndOfDigitsIs(fmt, l.width, l.precision);
    case WidthStar =>
      assert fmt[l.width] == s[0];
  }

  lemma FlagsAre(fmt: seq<char>, p: Piece, l: Layout)
    requires p.Directive? && p.Valid() && StandsAt(fmt, p, l) && !IsFlag(fmt[l.width])
    ensures EndOfFlags(fmt, l.flags) == l.width && FlagsIn(fmt[l.flags..l.width]) == FlagsIn(p.flags)
  {
    var s := fmt[l.flags..l.width];
    assert forall x :: l.flags <= x < l.width ==> fmt[x] == s[x - l.flags];
    EndOfFlagsIs(fmt, l.flags, l.width);
  }

  // ---- The parts together

  /** The flags once the width has been read. */
  function FlagsAfter(p: Piece, args: seq<Arg>, k: nat): Flags
    requires p.Directive? && p.Valid()
  {
    if WidthOf(p, args, k) < 0 then FlagsIn(p.flags).(minus := true) else FlagsIn(p.flags)
  }

  ghost predicate FlagsRead(fmt: seq<char>, p: Piece, l: Layout)
    requires p.Directive?
  {
    && l.flags <= l.width <= |fmt|
    && EndOfFlags(fmt, l.flags) == l.width && FlagsIn(fmt[l.flags..l.width]) == FlagsIn(p.flags)
  }

  ghost predicate WidthRead(fmt: seq<char>, args: seq<Arg>, p: Piece, l: Layout, k: nat)
    requires p.Directive? && p.Valid()
  {
    var w, k' := WidthOf(p, args, k), if p.width.WidthStar? then k + 1 else k;
    ReadWidth(fmt, args, Cursor(l.width, k), FlagsIn(p.flags))
    == Some(Field(if w < 0 then -w else w, FlagsAfter(p, args, k), Cursor(l.precision, k')))
  }

  ghost predicate PrecisionRead(fmt: seq<char>, args: seq<Arg>, p: Piece, l: Layout, k: nat)
    requires p.Directive? && p.Valid()
  {
    var k' := if p.width.WidthStar? then k + 1 else k;
    ReadPrec(fmt, args, Cursor(l.precision, k'), FlagsAfter(p, args, k))
    == Some(Field(PrecisionOf(p, args, k), FlagsAfter(p, args, k), Cursor(l.qual, k + p.Stars())))
  }

  ghost predicate QualifierRead(fmt: seq<char>, p: Piece, l: Layout)
    requires p.Directive?
  {
    && l.code < |fmt| && CharAt(fmt, l.code) == p.code
    && QualAt(fmt, l.qual) == Noted(p.qual) && AfterQual(fmt, l.qual) == l.code
  }

  /** The arguments that "*" takes are integers. */
  predicate StarsFit(p: Piece, args: seq<Arg>, k: nat)
    requires p.Directive?
  {
    forall j :: k <= j < k + p.Stars() ==> HasInt(args, j)
  }

  lemma QualifierIs(fmt: seq<char>, p: Piece, l: Layout)
    requires p.Directive? && p.Valid() && StandsAt(fmt, p, l)
    ensures IsQualOrCode(fmt[l.qual]) && QualifierRead(fmt, p, l)
  {
    QualOrCode(fmt, p, l);
  }

  lemma WidthAndFlags(fmt: seq<char>, args: seq<Arg>, p: Piece, l: Layout, k: nat)
    requires p.Directive? && p.Valid() && StandsAt(fmt, p, l) && StarsFit(p, args, k)
    requires fmt[l.precision] == '.' || IsQualOrCode(fmt[l.precision])
    ensures WidthRead(fmt, args, p, l, k) && FlagsRead(fmt, p, l)
  {
    hide ReadWidth, EndOfFlags, IsQualOrCode, FlagsIn, WidthOf;
    WidthIs(fmt, args, p, l, k, FlagsIn(p.flags));
    FlagsAre(fmt, p, l);
  }

  lemma PrecisionFollows(fmt: seq<char>, args: seq<Arg>, p: Piece, l: Layout, k: nat)
    requires p.Directive? && p.Valid() && StandsAt(fmt, p, l) && StarsFit(p, args, k) && IsQualOrCode(fmt[l.qual])
    ensures PrecisionRead(fmt, args, p, l, k)
  {
    hide ReadPrec, StandsAt, IsQualOrCode, FlagsIn, PrecisionOf, FlagsAfter;
    PrecisionIs(fmt, args, p, l, k, FlagsAfter(p, args, k));
  }

  /** A directive is read as it was spelled, with its "*" at arguments `k ..`. */
  lemma DirectiveIs(fmt: seq<char>, args: seq<Arg>, p: Piece, l: Layout, k: nat)
    requires p.Directive? && p.Valid() && StandsAt(fmt, p, l) && StarsFit(p, args, k)
    ensures ReadDirective(fmt, args, Cursor(l.flags, k))
         == Some(Printf.Directive(SpecFor(p, args, k), Cursor(l.code + 1, k + p.Stars())))
  {
    QualifierIs(fmt, p, l);
    PrecisionStarts(fmt, p, l);
    hide StandsAt, StarsFit, IsQualOrCode, QualifierRead, PrecisionRead, WidthRead, FlagsRead, ReadDirective, SpecFor;
    WidthAndFlags(fmt, args, p, l, k);
    PrecisionFollows(fmt, args, p, l, k);
    Together(fmt, args, p, l, k);
  }

  lemma Together(fmt: seq<char>, args: seq<Arg>, p: Piece, l: Layout, k: nat)
    requires p.Directive? && p.Valid()
    requires QualifierRead(fmt, p, l) && FlagsRead(fmt, p, l)
    requires WidthRead(fmt, args, p, l, k) && PrecisionRead(fmt, args, p, l, k)
    ensures ReadDirective(fmt, args, Cursor(l.flags, k))
         == Some(Printf.Directive(SpecFor(p, args, k), Cursor(l.code + 1, k + p.Stars())))
  {
    hide ReadWidth, ReadPrec, QualAt, AfterQual, EndOfFlags, CharAt, WidthOf, PrecisionOf, Piece.Valid, Piece.Stars;
  }

  // ---- The format loop

  function LayoutAt(i: nat, p: Piece): Layout
    requires p.Directive?
  {
    var a := i + 1 + |p.flags|;
    var b := a + |SpellWidth(p.width)|;
    var c := b + |SpellPrecision(p.precision)|;
    Layout(i + 1, a, b, c, c + |SpellQualifier(p.qual)|)
  }

  /** A stretch of a stretch. */
  lemma Within(fmt: seq<char>, i: nat, s: seq<char>, a: nat, t: seq<char>, rest: seq<char>)
    requires i + |s| <= |fmt| && fmt[i..i + |s|] == s && a + |t| <= |s| && s[a..] == t + rest
    ensures fmt[i + a..i + a + |t|] == t
  {
    assert s[a..a + |t|] == t;
    assert forall x :: 0 <= x < |s| ==> fmt[i + x] == s[x];
  }

  lemma Regrouped(a: seq<char>, b: seq<char>, c: seq<char>, d: seq<char>, e: seq<char>)
    ensures var s := ['%'] + a + b + c + d + e;
      && s[0] == '%' && s[1..] == a + (b + c + d + e) && s[1 + |a|..] == b + (c + d + e)
      && s[1 + |a| + |b|..] == c + (d + e) && s[1 + |a| + |b| + |c|..] == d + e
      && s[1 + |a| + |b| + |c| + |d|..] == e + []
  {
  }

  lemma StandsAtPlace(fmt: seq<char>, i: nat, p: Piece)
    requires p.Directive? && i + |Spell(p)| <= |fmt| && fmt[i..i + |Spell(p)|] == Spell(p)
    ensures StandsAt(fmt, p, LayoutAt(i, p)) && fmt[i] == '%' && LayoutAt(i, p).code + 1 == i + |Spell(p)|
  {
    var s, a, b, c, d := Spell(p), p.flags, SpellWidth(p.width), SpellPrecision(p.precision), SpellQualifier(p.qual);
    var e := [p.code];
    Regrouped(a, b, c, d, e);
    assert fmt[i] == s[0];
    Within(fmt, i, s, 1, a, b + c + d + e);
    Within(fmt, i, s, 1 + |a|, b, c + d + e);
    Within(fmt, i, s, 1 + |a| + |b|, c, d + e);
    Within(fmt, i, s, 1 + |a| + |b| + |c|, d, e);
    Within(fmt, i, s, 1 + |a| + |b| + |c| + |d|, e, []);
  }

  lemma CodesTakeArguments(c: char)
    requires IsCode(c)
    ensures TakesArg(c) <==> c != '%'
  {
  }

  lemma StarsAreInts(p: Piece, args: seq<Arg>, k: nat)
    requires p.Directive? && p.Valid() && ArgsFit(p, args, k)
    ensures StarsFit(p, args, k)
  {
  }

  lemma TextIs(p: Piece, args: seq<Arg>, k: nat)
    requires p.Directive? && p.Valid() && ArgsFit(p, args, k)
    ensures RenderOne(SpecFor(p, args, k), args, k + p.Stars()) == Some(TextOf(p, args, k))
    ensures AfterArg(SpecFor(p, args, k), k + p.Stars()) == k + p.Takes()
  {
    hide Converted, Matches, Padded, TakesArg, WidthOf, PrecisionOf, IsCode, FlagsIn;
    CodesTakeArguments(p.code);
    if p.code == '%' {
      PercentIs(SpecFor(p, args, k));
    }
  }

  lemma PercentIs(spec: Spec)
    requires spec.code == '%'
    ensures Converted(spec, IntArg(0)) == ['%']
  {
  }

  /** One directive prints its text and leaves the cursor behind it and behind its arguments. */
  lemma OneIs(fmt: seq<char>, args: seq<Arg>, i: nat, p: Piece, k: nat)
    requires p.Directive? && p.Valid() && ArgsFit(p, args, k)
    requires i + |Spell(p)| <= |fmt| && fmt[i..i + |Spell(p)|] == Spell(p) && i < |fmt|
    ensures ReadOne(fmt, args, Cursor(i + 1, k))
         == Some(Printed(SpecFor(p, args, k), TextOf(p, args, k), Cursor(i + |Spell(p)|, k + p.Takes())))
  {
    hide ReadDirective, RenderOne, AfterArg, StandsAt, StarsFit, TextOf, SpecFor, ArgsFit, Spell, Piece.Valid;
    hide Piece.Takes, Piece.Stars;
    StandsAtPlace(fmt, i, p);
    StarsAreInts(p, args, k);
    assert LayoutAt(i, p).flags == i + 1;
    hide LayoutAt;
    DirectiveIs(fmt, args, p, LayoutAt(i, p), k);
    TextIs(p, args, k);
  }

  lemma {:induction false} NextPercentIs(fmt: seq<char>, i: nat, j: nat)
    requires i <= j <= |fmt| && '%' !in fmt[i..j]
    ensures NextPercent(fmt, i) == NextPercent(fmt, j)
    decreases j - i
  {
    if i == j {
    } else {
      assert fmt[i] == fmt[i..j][0] && fmt[i + 1..j] == fmt[i..j][1..];
      NextPercentIs(fmt, i + 1, j);
    }
  }

  /** Text up to a '%', the directive there and what follows it. */
  lemma RenderFrom(fmt: seq<char>, args: seq<Arg>, i: nat, e: nat, k: nat, n: nat, one: Printed, rest: seq<char>)
    requires i <= e < |fmt| && e == NextPercent(fmt, i) && ReadOne(fmt, args, Cursor(e + 1, k)) == Some(one)
    requires Render(fmt, args, one.next) == Some(rest)
    ensures Render(fmt, args, Cursor(i, k)) == Some(fmt[i..e] + one.text + rest)
    ensures Counts(fmt, args, Cursor(i, k), n)
         == StoredBy(one.spec, n + (e - i)) + Counts(fmt, args, one.next, n + (e - i) + |one.text|)
  {
    hide ReadOne, StoredBy;
  }

  /** Literal text is printed as it stands. */
  lemma LiteralIs(fmt: seq<char>, args: seq<Arg>, i: nat, j: nat, k: nat, n: nat)
    requires i <= j <= |fmt| && '%' !in fmt[i..j] && Render(fmt, args, Cursor(j, k)).Some?
    ensures Render(fmt, args, Cursor(i, k)) == Some(fmt[i..j] + Render(fmt, args, Cursor(j, k)).value)
    ensures Counts(fmt, args, Cursor(i, k), n) == Counts(fmt, args, Cursor(j, k), n + (j - i))
  {
    hide Render, Counts, ReadOne, StoredBy, NextPercent;
    NextPercentIs(fmt, i, j);
    var e := NextPercent(fmt, j);
    assert fmt[i..e] == fmt[i..j] + fmt[j..e];
    if e < |fmt| {
      var one, rest := RenderStep(fmt, args, Cursor(j, k), n + (j - i), e);
      RenderFrom(fmt, args, i, e, k, n, one, rest);
      Regroup(fmt[i..j], fmt[j..e], one.text);
      Regroup(fmt[i..j], fmt[j..e] + one.text, rest);
    } else {
      RenderEnd(fmt, args, Cursor(i, k));
      RenderEnd(fmt, args, Cursor(j, k));
    }
  }

  /** A directive is followed by what follows it. */
  lemma DirectiveRenders(fmt: seq<char>, args: seq<Arg>, i: nat, p: Piece, k: nat, n: nat, rest: seq<char>)
    requires p.Directive? && p.Valid() && ArgsFit(p, args, k)
    requires i + |Spell(p)| <= |fmt| && fmt[i..i + |Spell(p)|] == Spell(p)
    requires Render(fmt, args, Cursor(i + |Spell(p)|, k + p.Takes())) == Some(rest)
    ensures Render(fmt, args, Cursor(i, k)) == Some(TextOf(p, args, k) + rest)
    ensures Counts(fmt, args, Cursor(i, k), n)
         == (if p.code == 'n' then [n % CountSpan(p.qual)] else [])
            + Counts(fmt, args, Cursor(i + |Spell(p)|, k + p.Takes()), n + |TextOf(p, args, k)|)
  {
    hide Render, Counts, ReadOne, StoredBy, StandsAt, Spell, TextOf, SpecFor, ArgsFit, NextPercent;
    hide Piece.Valid, Piece.Takes, CountSpan, LayoutAt;
    StartsDirective(fmt, i, p);
    StoredIs(p, args, k, n);
    OneIs(fmt, args, i, p, k);
    var one := Printed(SpecFor(p, args, k), TextOf(p, args, k), Cursor(i + |Spell(p)|, k + p.Takes()));
    RenderFrom(fmt, args, i, i, k, n, one, rest);
    assert fmt[i..i] + one.text == one.text;
  }

  lemma StartsDirective(fmt: seq<char>, i: nat, p: Piece)
    requires p.Directive? && i + |Spell(p)| <= |fmt| && fmt[i..i + |Spell(p)|] == Spell(p)
    ensures i < |fmt| && NextPercent(fmt, i) == i
  {
    StandsAtPlace(fmt, i, p);
    hide StandsAt, Spell;
  }

  lemma StoredIs(p: Piece, args: seq<Arg>, k: nat, n: nat)
    requires p.Directive? && p.Valid()
    ensures StoredBy(SpecFor(p, args, k), n) == if p.code == 'n' then [n % CountSpan(p.qual)] else []
  {
  }

  /** From any place on where pieces are spelled, their texts are printed, with the arguments that are their turn. */
  lemma {:induction false} PiecesRender(fmt: seq<char>, args: seq<Arg>, i: nat, ps: seq<Piece>, k: nat, n: nat)
    requires AllFit(ps, args, k) && i <= |fmt| && fmt[i..] == SpellAll(ps)
    ensures Render(fmt, args, Cursor(i, k)) == Some(AllTexts(ps, args, k))
    ensures Counts(fmt, args, Cursor(i, k), n) == AllCounts(ps, args, k, n)
    decreases |ps|
  {
    hide Render, Counts, TextOf, CountSpan, Spell, ArgsFit, NextPercent, Piece.Takes, Piece.Valid;
    if ps == [] {
      assert i == |fmt| && fmt[i..|fmt|] == [];
      RenderEnd(fmt, args, Cursor(i, k));
    } else {
      var p, rest := ps[0], ps[1..];
      Follows(fmt, i, Spell(p), SpellAll(rest));
      PiecesRender(fmt, args, i + |Spell(p)|, rest, k + p.Takes(), n + |TextOf(p, args, k)|);
      PieceRenders(fmt, args, i, p, k, n, AllTexts(rest, args, k + p.Takes()));
    }
  }

  lemma PieceRenders(fmt: seq<char>, args: seq<Arg>, i: nat, p: Piece, k: nat, n: nat, rest: seq<char>)
    requires p.Valid() && ArgsFit(p, args, k)
    requires i + |Spell(p)| <= |fmt| && fmt[i..i + |Spell(p)|] == Spell(p)
    requires Render(fmt, args, Cursor(i + |Spell(p)|, k + p.Takes())) == Some(rest)
    ensures Render(fmt, args, Cursor(i, k)) == Some(TextOf(p, args, k) + rest)
    ensures Counts(fmt, args, Cursor(i, k), n)
         == (if p.Directive? && p.code == 'n' then [n % CountSpan(p.qual)] else [])
            + Counts(fmt, args, Cursor(i + |Spell(p)|, k + p.Takes()), n + |TextOf(p, args, k)|)
  {
    hide Render, Counts, CountSpan;
    if p.Directive? {
      hide Spell, ArgsFit, TextOf, Piece.Valid, Piece.Takes;
      DirectiveRenders(fmt, args, i, p, k, n, rest);
    } else {
      LiteralIs(fmt, args, i, i + |p.s|, k, n);
    }
  }

  lemma Follows(fmt: seq<char>, i: nat, s: seq<char>, t: seq<char>)
    requires i <= |fmt| && fmt[i..] == s + t
    ensures i + |s| <= |fmt| && fmt[i..i + |s|] == s && fmt[i + |s|..] == t
  {
    assert fmt[i..][..|s|] == s && fmt[i..][|s|..] == t;
  }

  /**
   The text of a format is the concatenation of the texts of its pieces, each "*" and each
   conversion taking the next argument; and "%n" stores how much text stands before it.
   */
  lemma FormatMeans(ps: seq<Piece>, args: seq<Arg>)
    requires AllFit(ps, args, 0)
    ensures Render(SpellAll(ps), args, Cursor(0, 0)) == Some(AllTexts(ps, args, 0))
    ensures Counts(SpellAll(ps), args, Cursor(0, 0), 0) == AllCounts(ps, args, 0, 0)
  {
    hide Render, Counts;
    PiecesRender(SpellAll(ps), args, 0, ps, 0, 0);
  }

  // ---- Whose turn an argument is

  /** The arguments that pieces take. */
  function Taken(ps: seq<Piece>): nat {
    if ps == [] then 0 else ps[0].Takes() + Taken(ps[1..])
  }

  /** Piece `j` has the arguments behind those of all pieces before it. */
  lemma {:induction false} PieceHasItsArguments(ps: seq<Piece>, args: seq<Arg>, k: nat, j: nat)
    requires AllFit(ps, args, k) && j < |ps|
    ensures var at := k + Taken(ps[..j]);
      && ps[j].Valid() && ArgsFit(ps[j], args, at)
      && AllFit(ps[..j], args, k) && AllFit(ps[j + 1..], args, at + ps[j].Takes())
      && AllTexts(ps, args, k)
         == AllTexts(ps[..j], args, k) + TextOf(ps[j], args, at) + AllTexts(ps[j + 1..], args, at + ps[j].Takes())
  {
    hide ArgsFit, TextOf, Piece.Valid, Piece.Takes;
    if j == 0 {
      assert ps[..0] == [];
    } else {
      PieceHasItsArguments(ps[1..], args, k + ps[0].Takes(), j - 1);
      assert ps[..j][1..] == ps[1..][..j - 1];
      assert ps[1..][j..] == ps[j + 1..];
    }
  }
}
