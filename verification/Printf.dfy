/**
 `_Printf` and `_Putfld`: reading a format, converting the arguments and sending the
 text to a sink that may refuse at any call. `Render` says what text is due.
 */
module Printf {
  import opened Common
  import opened Decimal
  import opened FloatText
  import opened PrintField
  import opened FloatLayout
  import opened IntegerText

  // ---- Arguments and directives

  /**
   Integers are given as `va_arg` reads them: 64 bits for "ll" and "L", else 32. A place
   for the count is where "%n" stores.
   */
  datatype Arg = IntArg(v: int) | StrArg(s: seq<char>) | FloatArg(negative: bool, value: FloatClass) | CountArg

  datatype Spec = Spec(flags: Flags, width: int, prec: int, qual: char, code: char)

  const NUL := '\0'

  predicate IsUnsignedCode(code: char) {
    code == 'x' || code == 'X' || code == 'u' || code == 'o'
  }

  predicate IsSignedCode(code: char) {
    code == 'd' || code == 'i'
  }

  predicate TakesArg(code: char) {
    || IsSignedCode(code) || IsUnsignedCode(code) || IsFloatCode(code)
    || code == 'c' || code == 'p' || code == 's' || code == 'n'
  }

  /** The argument has the type the directive reads, and strings end in a NUL. */
  predicate Matches(spec: Spec, arg: Arg) {
    if IsFloatCode(spec.code) then
      arg.FloatArg? && arg.value.Valid()
      && (arg.value.Tiny? ==> NoneGenerated(spec.code, arg.value.xexp, spec.prec))
    else if spec.code == 's' then arg.StrArg? && NUL in arg.s
    else if spec.code == 'n' then arg.CountArg?
    else arg.IntArg? &&
         if spec.qual == 'L' && (IsSignedCode(spec.code) || IsUnsignedCode(spec.code)) then -TWO63 <= arg.v < TWO63
         else -0x8000_0000 <= arg.v < 0x8000_0000
  }

  // ---- What one directive prints

  /** The characters of a string before its NUL. */
  function CString(s: seq<char>): (t: seq<char>)
    requires NUL in s
    ensures |t| < |s| && t == s[..|t|] && s[|t|] == NUL && NUL !in t
  {
    if s[0] == NUL then [] else [s[0]] + CString(s[1..])
  }

  /** A signed conversion narrows to `short` only for 'h'. */
  function SignedValue(qual: char, v: int): int {
    if qual == 'h' then (v + 0x8000) % 0x1_0000 - 0x8000 else v
  }

  /** An unsigned conversion narrows for 'h' and for no qualifier; for "l" and "ll" it keeps the sign. */
  function UnsignedValue(qual: char, v: int): int {
    if qual == 'h' then v % 0x1_0000 else if qual == NUL then v % 0x1_0000_0000 else v
  }

  function Sign(negative: bool, flags: Flags): seq<char> {
    if negative then ['-'] else if flags.plus then ['+'] else if flags.space then [' '] else []
  }

  /** '#' puts "0" in front, or "0x" with the letter of the conversion. */
  function RadixPrefix(flags: Flags, code: char): seq<char> {
    if !flags.hash then [] else if code == 'x' || code == 'X' then ['0', code] else ['0']
  }

  function IntegerConversion(spec: Spec, code: char, prefix: seq<char>, ll: int): seq<char>
    requires -TWO63 <= ll < TWO63
  {
    var digits := Magnitude(code, Unsigned(code, ll), spec.prec);
    prefix + Zeros(IntegerZeros(spec.flags, spec.width, spec.prec, |prefix|, |digits|)) + digits
  }

  function FloatConversion(spec: Spec, prefix: seq<char>, v: FloatClass): seq<char>
    requires v.Valid()
  {
    var body := ConvertedText(spec.code, v, spec.prec, spec.flags.hash);
    var zeros := if v.NotANumber? || v.Infinite? then 0 else ZeroPadding(spec.flags, spec.width, |prefix| + |body|);
    prefix + Zeros(zeros) + body
  }

  /** The text of a conversion before padding with spaces. */
  function Converted(spec: Spec, arg: Arg): seq<char>
    requires TakesArg(spec.code) ==> Matches(spec, arg)
  {
    if spec.code == 'c' then [(arg.v % 0x100) as char]
    else if IsSignedCode(spec.code) then
      var ll := SignedValue(spec.qual, arg.v);
      IntegerConversion(spec, spec.code, Sign(ll < 0, spec.flags), ll)
    else if IsUnsignedCode(spec.code) then
      IntegerConversion(spec, spec.code, RadixPrefix(spec.flags, spec.code), UnsignedValue(spec.qual, arg.v))
    else if spec.code == 'p' then IntegerConversion(spec, 'x', [], arg.v)
    else if IsFloatCode(spec.code) then FloatConversion(spec, Sign(arg.negative, spec.flags), arg.value)
    else if spec.code == 's' then
      var t := CString(arg.s);
      if 0 <= spec.prec < |t| then t[..spec.prec] else t
    else if spec.code == 'n' then []
    else [spec.code]
  }

  /** What "%n" stores when `n` characters have been accepted: as many bits as the qualifier names. */
  function StoredValue(qual: char, n: nat): nat {
    n % (if qual == 'h' then 0x1_0000 else if qual == 'L' then TWO64 else 0x1_0000_0000)
  }

  function StoredBy(spec: Spec, n: nat): seq<nat> {
    if spec.code == 'n' then [StoredValue(spec.qual, n)] else []
  }

  function Repeat(c: char, n: int): (s: seq<char>)
    ensures |s| == if n > 0 then n else 0
    ensures forall i :: 0 <= i < |s| ==> s[i] == c
  {
    seq(if n > 0 then n else 0, _ => c)
  }

  /** Padding with spaces on the side that '-' selects. */
  function Padded(spec: Spec, text: seq<char>): seq<char> {
    if spec.flags.minus then text + Repeat(' ', spec.width - |text|) else Repeat(' ', spec.width - |text|) + text
  }

  /**
   A conversion is as long as its width or its text, whichever is longer; the text stands at
   the right, or at the left if '-' says so, and the rest is spaces.
   */
  lemma PaddedLength(spec: Spec, text: seq<char>)
    ensures |Padded(spec, text)| == if spec.width > |text| then spec.width else |text|
    ensures var p := Padded(spec, text); var n := |p| - |text|;
      if spec.flags.minus then p[..|text|] == text && forall i :: |text| <= i < |p| ==> p[i] == ' '
      else p[n..] == text && forall i :: 0 <= i < n ==> p[i] == ' '
  {
  }

  // ---- Reading the format

  function CharAt(fmt: seq<char>, i: nat): char {
    if i < |fmt| then fmt[i] else NUL
  }

  predicate IsFlag(c: char) {
    c == ' ' || c == '+' || c == '-' || c == '#' || c == '0'
  }

  function WithFlag(f: Flags, c: char): Flags {
    if c == ' ' then f.(space := true)
    else if c == '+' then f.(plus := true)
    else if c == '-' then f.(minus := true)
    else if c == '#' then f.(hash := true)
    else f.(zero := true)
  }

  function EndOfFlags(fmt: seq<char>, i: nat): (j: nat)
    ensures i <= j && (i <= |fmt| ==> j <= |fmt|) && !IsFlag(CharAt(fmt, j))
    decreases |fmt| - i
  {
    if IsFlag(CharAt(fmt, i)) then EndOfFlags(fmt, i + 1) else i
  }

  /** Each flag is set if and only if its character is there. */
  function FlagsIn(s: seq<char>): Flags {
    Flags(' ' in s, '+' in s, '-' in s, '#' in s, '0' in s)
  }

  function EndOfDigits(fmt: seq<char>, i: nat): (j: nat)
    ensures i <= j && (i <= |fmt| ==> j <= |fmt|) && !IsDigit(CharAt(fmt, j))
    ensures j <= |fmt| ==> AllDigits(fmt[i..j])
    decreases |fmt| - i
  {
    if IsDigit(CharAt(fmt, i)) then EndOfDigits(fmt, i + 1) else i
  }

  /** The digits that count in a number: reading stops adding once it has reached 999. */
  function CountedDigits(s: seq<char>): (n: nat)
    requires AllDigits(s)
    ensures n <= |s|
    ensures n < |s| ==> 999 <= Val(s[..n])
    ensures n > 0 ==> Val(s[..n - 1]) < 999
  {
    if s == [] then 0
    else
      var before := s[..|s| - 1];
      var n := CountedDigits(before);
      assert before[..n] == s[..n] && (n > 0 ==> before[..n - 1] == s[..n - 1]);
      if Val(s[..n]) < 999 then n + 1 else n
  }

  function Number(s: seq<char>): nat
    requires AllDigits(s)
  {
    Val(s[..CountedDigits(s)])
  }

  /** Numbers below 9990 are read as they stand; any other gives one from 999 to 9989. */
  lemma NumberIsValueIff(s: seq<char>)
    requires AllDigits(s)
    ensures Number(s) == Val(s) <==> Val(s) < 9990
    ensures Val(s) >= 9990 ==> 999 <= Number(s) < 9990
  {
    var n := CountedDigits(s);
    hide Val, Pow, CountedDigits;
    if n > 0 {
      LastDigit(s, n);
    } else {
      NoNumber(s[..n]);
    }
    MoreDigits(s, n);
  }

  lemma LastDigit(s: seq<char>, n: nat)
    requires AllDigits(s) && 0 < n <= |s|
    ensures Val(s[..n]) < Val(s[..n - 1]) * 10 + 10
  {
    assert s[..n] == s[..n - 1] + [s[n - 1]];
    ValPush(s[..n - 1], s[n - 1]);
    hide Val;
  }

  /** Digits that are left out make a number at least ten times larger. */
  lemma MoreDigits(s: seq<char>, n: nat)
    requires AllDigits(s) && n <= |s|
    ensures if n == |s| then Val(s) == Val(s[..n]) else Val(s) >= 10 * Val(s[..n])
  {
    hide Val, Pow;
    assert s == s[..n] + s[n..];
    if n < |s| {
      ValAppend(s[..n], s[n..]);
      TenTimes(Val(s[..n]), |s| - n);
    } else {
      assert s[..n] == s;
    }
  }

  lemma TenTimes(v: nat, k: nat)
    requires k > 0
    ensures v * Pow(10, k) >= 10 * v
  {
    var p := Pow(10, k - 1);
    assert Pow(10, k) == 10 * p && v * (10 * p) == 10 * (v * p);
    assert v * p >= v;
  }

  /** One more digit. */
  lemma NumberPush(s: seq<char>, c: char)
    requires AllDigits(s) && IsDigit(c)
    ensures Number(s + [c]) == if Number(s) < 999 then Number(s) * 10 + DigitValue(c) else Number(s)
  {
    var n := CountedDigits(s);
    assert (s + [c])[..|s|] == s && (s + [c])[..n] == s[..n];
    if Number(s) < 999 {
      assert s[..n] == s && (s + [c])[..n + 1] == s + [c];
      ValPush(s, c);
    }
  }

  function DigitsAt(fmt: seq<char>, i: nat): (s: seq<char>)
    ensures AllDigits(s)
  {
    if i > |fmt| then []
    else fmt[i..EndOfDigits(fmt, i)]
  }

  /** The number that stands at `i`, 0 for none. */
  function NumberAt(fmt: seq<char>, i: nat): nat {
    Number(DigitsAt(fmt, i))
  }

  function NextPercent(fmt: seq<char>, i: nat): (j: nat)
    requires i <= |fmt|
    ensures i <= j <= |fmt| && (j < |fmt| ==> fmt[j] == '%')
    decreases |fmt| - i
  {
    if i == |fmt| || fmt[i] == '%' then i else NextPercent(fmt, i + 1)
  }

  /** A place in the format and in the argument list. */
  datatype Cursor = Cursor(i: nat, a: nat)

  datatype Field = Field(value: int, flags: Flags, next: Cursor)

  predicate HasInt(args: seq<Arg>, a: nat) {
    a < |args| && args[a].IntArg?
  }

  /** The width: digits, or '*' with an argument, where a negative one means '-' as well. */
  function ReadWidth(fmt: seq<char>, args: seq<Arg>, at: Cursor, flags: Flags): Option<Field> {
    if CharAt(fmt, at.i) == '*' then
      if !HasInt(args, at.a) then None
      else
        var v, next := args[at.a].v, Cursor(at.i + 1, at.a + 1);
        Some(if v < 0 then Field(-v, flags.(minus := true), next) else Field(v, flags, next))
    else Some(Field(NumberAt(fmt, at.i), flags, Cursor(EndOfDigits(fmt, at.i), at.a)))
  }

  /** The precision: -1 without a '.', else digits or '*'. */
  function ReadPrec(fmt: seq<char>, args: seq<Arg>, at: Cursor, flags: Flags): Option<Field> {
    if CharAt(fmt, at.i) != '.' then Some(Field(-1, flags, at))
    else if CharAt(fmt, at.i + 1) == '*' then
      if !HasInt(args, at.a) then None else Some(Field(args[at.a].v, flags, Cursor(at.i + 2, at.a + 1)))
    else Some(Field(NumberAt(fmt, at.i + 1), flags, Cursor(EndOfDigits(fmt, at.i + 1), at.a)))
  }

  function QualAt(fmt: seq<char>, i: nat): char {
    var c := CharAt(fmt, i);
    if c == 'l' && CharAt(fmt, i + 1) == 'l' then 'L' else if c == 'h' || c == 'l' || c == 'L' then c else NUL
  }

  function AfterQual(fmt: seq<char>, i: nat): nat {
    var c := CharAt(fmt, i);
    if c == 'l' && CharAt(fmt, i + 1) == 'l' then i + 2 else if c == 'h' || c == 'l' || c == 'L' then i + 1 else i
  }

  datatype Directive = Directive(spec: Spec, next: Cursor)

  /** The directive after a '%' at `i - 1`; none if it is cut off or wants a missing '*' argument. */
  function ReadDirective(fmt: seq<char>, args: seq<Arg>, at: Cursor): Option<Directive>
    requires at.i <= |fmt|
  {
    var j := EndOfFlags(fmt, at.i);
    var flags := FlagsIn(fmt[at.i..j]);
    var width := ReadWidth(fmt, args, Cursor(j, at.a), flags);
    if width.None? then None
    else
      var prec := ReadPrec(fmt, args, width.value.next, width.value.flags);
      if prec.None? then None
      else
        var k := AfterQual(fmt, prec.value.next.i);
        var spec := Spec(width.value.flags, width.value.value, prec.value.value,
                         QualAt(fmt, prec.value.next.i), CharAt(fmt, k));
        if k >= |fmt| then None else Some(Directive(spec, Cursor(k + 1, prec.value.next.a)))
  }

  lemma DirectiveAdvances(fmt: seq<char>, args: seq<Arg>, at: Cursor)
    requires at.i <= |fmt| && ReadDirective(fmt, args, at).Some?
    ensures at.i < ReadDirective(fmt, args, at).value.next.i <= |fmt|
  {
  }

  function AfterArg(spec: Spec, a: nat): nat {
    if TakesArg(spec.code) then a + 1 else a
  }

  function RenderOne(spec: Spec, args: seq<Arg>, a: nat): Option<seq<char>> {
    if !TakesArg(spec.code) then Some(Padded(spec, Converted(spec, IntArg(0))))
    else if a < |args| && Matches(spec, args[a]) then Some(Padded(spec, Converted(spec, args[a])))
    else None
  }

  /** What one directive prints and where the next one may begin. */
  datatype Printed = Printed(spec: Spec, text: seq<char>, next: Cursor)

  /** The directive after a '%' at `i - 1` with its arguments. */
  function ReadOne(fmt: seq<char>, args: seq<Arg>, at: Cursor): (r: Option<Printed>)
    requires at.i <= |fmt|
    ensures r.Some? ==> at.i < r.value.next.i <= |fmt|
  {
    var d := ReadDirective(fmt, args, at);
    if d.None? then None
    else
      DirectiveAdvances(fmt, args, at);
      var spec, next := d.value.spec, d.value.next;
      var text := RenderOne(spec, args, next.a);
      if text.None? then None else Some(Printed(spec, text.value, Cursor(next.i, AfterArg(spec, next.a))))
  }

  /**
   The text a format and its arguments stand for, from a place on; none if the format
   is not well formed or an argument is missing or of the wrong type.
   */
  function Render(fmt: seq<char>, args: seq<Arg>, at: Cursor): Option<seq<char>>
    decreases |fmt| - at.i
  {
    if at.i > |fmt| then None
    else
      var j := NextPercent(fmt, at.i);
      if j == |fmt| then Some(fmt[at.i..])
      else
        var one := ReadOne(fmt, args, Cursor(j + 1, at.a));
        if one.None? then None
        else
          var rest := Render(fmt, args, one.value.next);
          if rest.None? then None else Some(fmt[at.i..j] + one.value.text + rest.value)
  }

  /**
   What the "%n" directives store, in order, if `n` characters were accepted before: each
   the number of characters that stand before it.
   */
  function Counts(fmt: seq<char>, args: seq<Arg>, at: Cursor, n: nat): seq<nat>
    decreases |fmt| - at.i
  {
    if at.i > |fmt| then []
    else
      var j := NextPercent(fmt, at.i);
      if j == |fmt| then []
      else
        var one := ReadOne(fmt, args, Cursor(j + 1, at.a));
        if one.None? then []
        else
          var here := n + (j - at.i);
          StoredBy(one.value.spec, here) + Counts(fmt, args, one.value.next, here + |one.value.text|)
  }

  // ---- The sink

  /** Where the text goes. Whether call number `n` is accepted is up to the sink. */
  class Sink {
    const accepts: nat -> bool
    var calls: nat
    var out: seq<char>
    var refused: bool

    constructor (accepts: nat -> bool)
      ensures this.accepts == accepts && out == [] && !refused
    {
      this.accepts := accepts;
      calls, out, refused := 0, [], false;
    }

    /** One call of the output function; false is its null result. */
    method Accept(s: seq<char>) returns (ok: bool)
      modifies this
      ensures out == if ok then old(out) + s else old(out)
      ensures refused == (old(refused) || !ok)
    {
      ok := accepts(calls);
      calls := calls + 1;
      if ok {
        out := out + s;
      } else {
        refused := true;
      }
    }
  }

  /** `text` was sent between two contents of the sink: all of it, or a proper part before a refusal. */
  ghost predicate Sent(before: seq<char>, after: seq<char>, text: seq<char>, ok: bool) {
    && before <= after <= before + text
    && (ok <==> after == before + text)
  }

  lemma SentThen(a: seq<char>, b: seq<char>, c: seq<char>, t1: seq<char>, t2: seq<char>, ok: bool)
    requires Sent(a, b, t1, true) && Sent(b, c, t2, ok)
    ensures Sent(a, c, t1 + t2, ok)
  {
    assert a + (t1 + t2) == b + t2;
  }

  lemma SentPart(a: seq<char>, b: seq<char>, t1: seq<char>, t2: seq<char>)
    requires Sent(a, b, t1, false)
    ensures Sent(a, b, t1 + t2, false)
  {
    assert a + (t1 + t2) == a + t1 + t2;
    assert |b| < |a + t1|;
  }

  lemma SentNothing(a: seq<char>)
    ensures Sent(a, a, [], true)
  {
  }

  /** What the pieces of the format loop promise: the count follows the sink, and a refusal ends it. */
  twostate predicate Delivered(sink: Sink, text: seq<char>, ok: bool, nchar0: nat, nchar: nat)
    reads sink
  {
    && Sent(old(sink.out), sink.out, text, ok)
    && nchar == nchar0 + |sink.out| - |old(sink.out)|
    && sink.refused == !ok
  }

  /** `PUT`: nothing for an empty piece; a refusal leaves the count as it is. */
  method Put(sink: Sink, s: seq<char>, nchar0: nat) returns (ok: bool, nchar: nat)
    requires !sink.refused
    modifies sink
    ensures Delivered(sink, s, ok, nchar0, nchar)
  {
    ok, nchar := true, nchar0;
    if 0 < |s| {
      ok := sink.Accept(s);
      if ok {
        nchar := nchar + |s|;
      }
    }
  }

  const MAX_PAD: nat := 32

  /** `PAD`: a run of one character, at most 32 at a time. */
  method Pad(sink: Sink, c: char, n: int, nchar0: nat) returns (ok: bool, nchar: nat)
    requires !sink.refused
    modifies sink
    ensures Delivered(sink, Repeat(c, n), ok, nchar0, nchar)
  {
    ok, nchar := true, nchar0;
    if 0 < n {
      var j := n;
      while 0 < j
        invariant 0 <= j <= n && !sink.refused
        invariant Sent(old(sink.out), sink.out, Repeat(c, n - j), true)
        invariant nchar == nchar0 + |sink.out| - |old(sink.out)|
      {
        var i := if MAX_PAD < j then MAX_PAD else j;
        ghost var before := sink.out;
        ok, nchar := Put(sink, Repeat(c, i), nchar);
        assert Repeat(c, n - j) + Repeat(c, i) == Repeat(c, n - (j - i));
        if !ok {
          assert Repeat(c, n) == Repeat(c, n - (j - i)) + Repeat(c, j - i);
          return;
        }
        j := j - i;
      }
    }
  }

  // ---- Conversions

  /** `ac[n0++] = c` for each character of `src`. */
  method PutPrefix(px: Pft, src: seq<char>)
    requires px.Valid() && px.n0 + |src| <= AC_LEN && px.n1 == px.n2 == 0
    modifies px.ac, px`n0
    ensures px.Valid() && px.n0 == old(px.n0) + |src|
    ensures px.Prefix() == old(px.Prefix()) + src
  {
    ghost var before := px.ac[..];
    Copy(px.ac, px.n0, src);
    Behind(before, px.ac[..], 0, px.n0, src);
    px.n0 := px.n0 + |src|;
  }

  lemma OnlyPrefix(px: Pft)
    requires px.Valid() && px.nz0 == px.n1 == px.nz1 == px.n2 == px.nz2 == 0
    ensures px.Text() == px.Prefix()
  {
  }

  lemma NoPrefix(px: Pft)
    requires px.Valid() && px.n0 == 0
    ensures px.Prefix() == []
  {
  }

  lemma PrefixLength(px: Pft)
    requires px.Valid()
    ensures |px.Prefix()| == px.n0
  {
  }

  /** Clears the counts; the pointer stays where it was. */
  ghost predicate Blank(px: Pft)
    reads px
  {
    px.Valid() && px.n0 == px.nz0 == px.n1 == px.nz1 == px.n2 == px.nz2 == 0
  }

  /** The integer conversions: a prefix, then the digits behind it. */
  method PutInteger(px: Pft, code: char, prefix: seq<char>, ll: int)
    requires Blank(px) && |prefix| <= 2 && -TWO63 <= ll < TWO63
    modifies px`s, px`off, px`n0, px`nz0, px`n1, px.ac
    ensures px.Valid()
    ensures px.Text() == IntegerConversion(Spec(px.flags, px.width, px.prec, px.qual, code), code, prefix, ll)
  {
    hide Pft.Prefix, Pft.Body, Magnitude, IntegerZeros, Zeros;
    NoPrefix(px);
    PutPrefix(px, prefix);
    PrefixLength(px);
    px.s, px.off := px.ac, px.n0;
    Litob(px, code, ll);
  }

  method PutFloat(px: Pft, code: char, prefix: seq<char>, v: FloatClass)
    requires Blank(px) && |prefix| <= 1 && v.Valid()
    modifies px`s, px`off, px`n0, px`nz0, px`n1, px`nz1, px`n2, px`nz2, px`prec, px.ac
    ensures px.Valid()
    ensures px.Text() == FloatConversion(Spec(px.flags, px.width, old(px.prec), px.qual, code), prefix, v)
  {
    hide Pft.Prefix, Pft.Body, ConvertedText, ZeroPadding, Zeros;
    NoPrefix(px);
    PutPrefix(px, prefix);
    PrefixLength(px);
    px.s, px.off := px.ac, px.n0;
    Ldtob(px, code, v);
  }

  /** 's': the string itself, cut at the precision; it is not copied. */
  method PutString(px: Pft, text: seq<char>)
    requires Blank(px) && NUL in text
    modifies px`s, px`off, px`n1
    ensures px.Valid()
    ensures var t := CString(text); px.Text() == if 0 <= px.prec < |t| then t[..px.prec] else t
  {
    ghost var t := CString(text);
    var s := new char[|text|](i requires 0 <= i < |text| => text[i]);
    assert s[..] == text;
    hide CString;
    var strLen := 0;
    while s[strLen] != NUL
      invariant strLen <= |t| < s.Length
      decreases |t| - strLen
    {
      assert s[..][strLen] == t[strLen];
      strLen := strLen + 1;
    }
    assert s[..][strLen] == NUL && strLen == |t|;
    px.s, px.off, px.n1 := s, 0, strLen;
    if px.prec >= 0 && px.prec < px.n1 {
      px.n1 := px.prec;
    }
    OnlyFirst(px, text);
  }

  lemma OnlyFirst(px: Pft, text: seq<char>)
    requires px.Valid() && px.off == px.n0 == px.nz0 == px.nz1 == px.n2 == px.nz2 == 0 && px.s[..] == text
    ensures px.Text() == text[..px.n1]
  {
    assert px.First() == text[..px.n1];
  }

  /** `_Putfld`: reads the argument the conversion wants and fills the record's fields. */
  method Putfld(px: Pft, code: char, args: seq<Arg>, a: nat, nchar: nat) returns (next: nat, stored: seq<nat>)
    requires px.Valid()
    requires TakesArg(code) ==> a < |args| && Matches(Spec(px.flags, px.width, px.prec, px.qual, code), args[a])
    modifies px`s, px`off, px`n0, px`nz0, px`n1, px`nz1, px`n2, px`nz2, px`prec, px.ac
    ensures px.Valid()
    ensures px.Text() == Converted(Spec(px.flags, px.width, old(px.prec), px.qual, code),
                                   if TakesArg(code) then args[a] else IntArg(0))
    ensures next == AfterArg(Spec(px.flags, px.width, old(px.prec), px.qual, code), a)
    ensures stored == StoredBy(Spec(px.flags, px.width, old(px.prec), px.qual, code), nchar)
  {
    hide IntegerConversion, FloatConversion, CString, Pft.Text, Pft.Prefix;
    px.n0, px.nz0, px.n1, px.nz1, px.n2, px.nz2 := 0, 0, 0, 0, 0, 0;
    next := if TakesArg(code) then a + 1 else a;
    stored := [];
    if code == 'c' {
      PutSingle(px, (args[a].v % 0x100) as char);
    } else if IsSignedCode(code) {
      var ll := SignedValue(px.qual, args[a].v);
      PutInteger(px, code, Sign(ll < 0, px.flags), ll);
    } else if IsUnsignedCode(code) {
      PutInteger(px, code, RadixPrefix(px.flags, code), UnsignedValue(px.qual, args[a].v));
    } else if code == 'p' {
      PutPointer(px, args[a].v);
    } else if IsFloatCode(code) {
      PutFloat(px, code, Sign(args[a].negative, px.flags), args[a].value);
    } else if code == 's' {
      PutString(px, args[a].s);
    } else if code == 'n' {
      stored := [StoredValue(px.qual, nchar)];
      NoPrefix(px);
      OnlyPrefix(px);
    } else {
      PutSingle(px, code);
    }
  }

  method PutSingle(px: Pft, c: char)
    requires Blank(px)
    modifies px`n0, px.ac
    ensures px.Valid() && px.Text() == [c]
  {
    NoPrefix(px);
    hide Pft.Text;
    PutPrefix(px, [c]);
    OnlyPrefix(px);
  }

  method PutPointer(px: Pft, v: int)
    requires Blank(px) && -0x8000_0000 <= v < 0x8000_0000
    modifies px`s, px`off, px`n0, px`nz0, px`n1, px.ac
    ensures px.Valid()
    ensures px.Text() == IntegerConversion(Spec(px.flags, px.width, px.prec, px.qual, 'p'), 'x', [], v)
  {
    PutInteger(px, 'x', [], v);
  }

  // ---- Sending one conversion

  lemma InSequence(a: seq<char>, b: seq<char>, c: seq<char>, t1: seq<char>, t2: seq<char>, ok1: bool, ok2: bool)
    requires Sent(a, b, t1, ok1) && if ok1 then Sent(b, c, t2, ok2) else c == b && !ok2
    ensures Sent(a, c, t1 + t2, ok2)
  {
    if ok1 {
      SentThen(a, b, c, t1, t2, ok2);
    } else {
      SentPart(a, b, t1, t2);
    }
  }

  lemma ZeroRun(n: nat)
    ensures Repeat('0', n) == Zeros(n)
  {
  }

  /** The stretch at `lo` of the string the record points to. */
  method PutStretch(sink: Sink, px: Pft, lo: nat, n: nat, nchar0: nat) returns (ok: bool, nchar: nat)
    requires !sink.refused && lo + n <= px.s.Length
    modifies sink
    ensures Delivered(sink, Slice(px.s[..], lo, n), ok, nchar0, nchar)
  {
    hide Sent;
    assert px.s[lo..lo + n] == Slice(px.s[..], lo, n);
    ok, nchar := Put(sink, px.s[lo..lo + n], nchar0);
  }

  /** `s[..n1]`, zeros, `s[n1..n1 + n2]`, zeros. */
  method PutBody(sink: Sink, px: Pft, nchar0: nat) returns (ok: bool, nchar: nat)
    requires px.Valid() && !sink.refused
    modifies sink
    ensures Delivered(sink, px.Body(), ok, nchar0, nchar)
  {
    hide Sent, Repeat, Zeros, Slice;
    ghost var o0 := sink.out;
    ZeroRun(px.nz1);
    ZeroRun(px.nz2);
    ok, nchar := PutStretch(sink, px, px.off, px.n1, nchar0);
    ghost var o1, ok1 := sink.out, ok;
    if ok {
      ok, nchar := Pad(sink, '0', px.nz1, nchar);
    }
    ghost var o2, ok2 := sink.out, ok;
    InSequence(o0, o1, o2, px.First(), Zeros(px.nz1), ok1, ok2);
    if ok {
      ok, nchar := PutStretch(sink, px, px.off + px.n1, px.n2, nchar);
    }
    ghost var o3, ok3 := sink.out, ok;
    InSequence(o0, o2, o3, px.First() + Zeros(px.nz1), px.Second(), ok2, ok3);
    if ok {
      ok, nchar := Pad(sink, '0', px.nz2, nchar);
    }
    InSequence(o0, o3, sink.out, px.First() + Zeros(px.nz1) + px.Second(), Zeros(px.nz2), ok3, ok);
  }

  /** The prefix, its zeros and the body. */
  method PutText(sink: Sink, px: Pft, nchar0: nat) returns (ok: bool, nchar: nat)
    requires px.Valid() && !sink.refused
    modifies sink
    ensures Delivered(sink, px.Text(), ok, nchar0, nchar)
  {
    hide Sent, Repeat, Zeros, Pft.Body;
    ghost var o0 := sink.out;
    ZeroRun(px.nz0);
    assert px.ac[..px.n0] == px.Prefix();
    hide Pft.Prefix;
    ok, nchar := Put(sink, px.ac[..px.n0], nchar0);
    ghost var o1, ok1 := sink.out, ok;
    if ok {
      ok, nchar := Pad(sink, '0', px.nz0, nchar);
    }
    ghost var o2, ok2 := sink.out, ok;
    InSequence(o0, o1, o2, px.Prefix(), Zeros(px.nz0), ok1, ok2);
    if ok {
      ok, nchar := PutBody(sink, px, nchar);
    }
    InSequence(o0, o2, sink.out, px.Prefix() + Zeros(px.nz0), px.Body(), ok2, ok);
  }

  lemma TextLength(px: Pft)
    requires px.Valid()
    ensures |px.Text()| == px.n0 + px.nz0 + px.n1 + px.nz1 + px.n2 + px.nz2
  {
  }

  /** One conversion with its padding, however that is cut into chunks. */
  method PutPadded(sink: Sink, px: Pft, nchar0: nat, ghost spec: Spec) returns (ok: bool, nchar: nat)
    requires px.Valid() && !sink.refused && spec.flags == px.flags && spec.width == px.width
    modifies sink, px`width
    ensures px.Valid() && Delivered(sink, Padded(spec, old(px.Text())), ok, nchar0, nchar)
  {
    hide Sent, Repeat, Pft.Text;
    ghost var o0, text := sink.out, px.Text();
    TextLength(px);
    px.width := px.width - (px.n0 + px.nz0 + px.n1 + px.nz1 + px.n2 + px.nz2);
    ghost var spaces := Repeat(' ', px.width);
    TextKept(px);
    if !px.flags.minus {
      ok, nchar := Pad(sink, ' ', px.width, nchar0);
      ghost var o1, ok1 := sink.out, ok;
      if ok {
        ok, nchar := PutText(sink, px, nchar);
      }
      InSequence(o0, o1, sink.out, spaces, text, ok1, ok);
    } else {
      ok, nchar := PutText(sink, px, nchar0);
      ghost var o1, ok1 := sink.out, ok;
      if ok {
        ok, nchar := Pad(sink, ' ', px.width, nchar);
      }
      InSequence(o0, o1, sink.out, text, spaces, ok1, ok);
    }
  }

  twostate lemma TextKept(px: Pft)
    requires old(px.Valid()) && px.Valid()
    requires unchanged(px.ac) && unchanged(old(px.s))
    requires unchanged(px`s, px`off, px`n0, px`nz0, px`n1, px`nz1, px`n2, px`nz2)
    ensures px.Text() == old(px.Text())
  {
  }

  // ---- The format loop

  /** The flags, in any order and any number of times. */
  method ReadFlags(fmt: seq<char>, i: nat) returns (flags: Flags, s: nat)
    requires i <= |fmt|
    ensures s == EndOfFlags(fmt, i) && flags == FlagsIn(fmt[i..s])
  {
    flags, s := NO_FLAGS, i;
    while IsFlag(CharAt(fmt, s))
      invariant i <= s <= |fmt|
      invariant flags == FlagsIn(fmt[i..s])
      invariant EndOfFlags(fmt, i) == EndOfFlags(fmt, s)
      decreases |fmt| - s
    {
      assert fmt[i..s + 1] == fmt[i..s] + [fmt[s]];
      flags := WithFlag(flags, fmt[s]);
      s := s + 1;
    }
  }

  method ScanWidth(px: Pft, fmt: seq<char>, args: seq<Arg>, i: nat, a: nat) returns (s: nat, next: nat)
    requires i <= |fmt| && ReadWidth(fmt, args, Cursor(i, a), px.flags).Some?
    modifies px`flags, px`width
    ensures s <= |fmt|
    ensures ReadWidth(fmt, args, Cursor(i, a), old(px.flags)).value == Field(px.width, px.flags, Cursor(s, next))
  {
    s, next := i, a;
    if CharAt(fmt, s) == '*' {
      px.width := args[next].v;
      if px.width < 0 {
        px.width := -px.width;
        px.flags := px.flags.(minus := true);
      }
      s, next := s + 1, next + 1;
    } else {
      px.width, s := ReadNumber(fmt, s);
    }
  }

  method ScanPrec(px: Pft, fmt: seq<char>, args: seq<Arg>, i: nat, a: nat) returns (s: nat, next: nat)
    requires i <= |fmt| && ReadPrec(fmt, args, Cursor(i, a), px.flags).Some?
    modifies px`prec
    ensures s <= |fmt|
    ensures ReadPrec(fmt, args, Cursor(i, a), px.flags).value == Field(px.prec, px.flags, Cursor(s, next))
  {
    s, next := i, a;
    if CharAt(fmt, s) != '.' {
      px.prec := -1;
    } else {
      s := s + 1;
      if CharAt(fmt, s) == '*' {
        px.prec := args[next].v;
        s, next := s + 1, next + 1;
      } else {
        px.prec, s := ReadNumber(fmt, s);
      }
    }
  }

  method ScanQual(px: Pft, fmt: seq<char>, i: nat) returns (s: nat)
    modifies px`qual
    ensures px.qual == QualAt(fmt, i) && s == AfterQual(fmt, i)
  {
    s := i;
    if CharAt(fmt, s) == 'h' || CharAt(fmt, s) == 'l' || CharAt(fmt, s) == 'L' {
      px.qual := fmt[s];
      s := s + 1;
    } else {
      px.qual := NUL;
    }
    if px.qual == 'l' && CharAt(fmt, s) == 'l' {
      px.qual := 'L';
      s := s + 1;
    }
  }

  /** Flags, width, precision and qualifier of one directive, read into the record. */
  method ReadSpec(px: Pft, fmt: seq<char>, args: seq<Arg>, i: nat, a: nat) returns (s: nat, next: nat)
    requires i <= |fmt| && ReadDirective(fmt, args, Cursor(i, a)).Some?
    modifies px`flags, px`width, px`prec, px`qual
    ensures s < |fmt|
    ensures ReadDirective(fmt, args, Cursor(i, a)).value
         == Directive(Spec(px.flags, px.width, px.prec, px.qual, fmt[s]), Cursor(s + 1, next))
  {
    hide FlagsIn, ReadWidth, ReadPrec, QualAt, AfterQual;
    px.flags, s := ReadFlags(fmt, i);
    s, next := ScanWidth(px, fmt, args, s, a);
    s, next := ScanPrec(px, fmt, args, s, next);
    s := ScanQual(px, fmt, s);
  }

  /** `ATOI`. */
  method ReadNumber(fmt: seq<char>, i: nat) returns (value: nat, s: nat)
    requires i <= |fmt|
    ensures value == NumberAt(fmt, i) && s == EndOfDigits(fmt, i)
    ensures var digits := DigitsAt(fmt, i);
      if Val(digits) < 9990 then value == Val(digits) else 999 <= value < 9990
  {
    hide Val, CountedDigits, Number;
    value, s := 0, i;
    NoNumber(fmt[i..i]);
    while IsDigit(CharAt(fmt, s))
      invariant i <= s <= |fmt|
      invariant AllDigits(fmt[i..s]) && value == Number(fmt[i..s])
      invariant EndOfDigits(fmt, i) == EndOfDigits(fmt, s)
      decreases |fmt| - s
    {
      NumberPush(fmt[i..s], fmt[s]);
      assert fmt[i..s + 1] == fmt[i..s] + [fmt[s]];
      if value < 999 {
        value := value * 10 + DigitValue(fmt[s]);
      }
      s := s + 1;
    }
    NumberIsValueIff(fmt[i..s]);
  }

  lemma NoNumber(s: seq<char>)
    requires s == []
    ensures Number(s) == 0 && Val(s) == 0
  {
  }

  /** One directive: read, convert, send. */
  method PrintDirective(sink: Sink, px: Pft, fmt: seq<char>, args: seq<Arg>, i: nat, a: nat, nchar0: nat)
    returns (ok: bool, nchar: nat, i': nat, a': nat, stored: seq<nat>)
    requires px.Valid() && !sink.refused && i <= |fmt|
    requires ReadOne(fmt, args, Cursor(i, a)).Some?
    modifies sink, px, px.ac
    ensures px.Valid()
    ensures var one := ReadOne(fmt, args, Cursor(i, a)).value;
      && Delivered(sink, one.text, ok, nchar0, nchar)
      && Cursor(i', a') == one.next && stored == StoredBy(one.spec, nchar0)
  {
    hide Converted, Pft.Text, Sent, Padded, Matches, ReadDirective;
    var s, next := ReadSpec(px, fmt, args, i, a);
    ghost var spec := Spec(px.flags, px.width, px.prec, px.qual, fmt[s]);
    a', stored := Putfld(px, fmt[s], args, next, nchar0);
    ok, nchar := PutPadded(sink, px, nchar0, spec);
    i' := s + 1;
  }

  /** The literal text up to the next '%' or the end. */
  method FindPercent(fmt: seq<char>, i: nat) returns (s: nat)
    requires i <= |fmt| && NUL !in fmt
    ensures s == NextPercent(fmt, i)
  {
    s := i;
    var c := CharAt(fmt, s);
    while c != NUL && c != '%'
      invariant i <= s <= |fmt| && c == CharAt(fmt, s)
      invariant NextPercent(fmt, i) == NextPercent(fmt, s)
      decreases |fmt| - s
    {
      s := s + 1;
      c := CharAt(fmt, s);
    }
  }

  lemma RenderEnd(fmt: seq<char>, args: seq<Arg>, at: Cursor)
    requires at.i <= |fmt| && NextPercent(fmt, at.i) == |fmt|
    ensures Render(fmt, args, at) == Some(fmt[at.i..|fmt|]) && forall n :: Counts(fmt, args, at, n) == []
  {
    assert fmt[at.i..] == fmt[at.i..|fmt|];
  }

  /** The next directive, what it adds to the text and what it stores. */
  lemma RenderStep(fmt: seq<char>, args: seq<Arg>, at: Cursor, n: nat, j: nat) returns (one: Printed, rest: seq<char>)
    requires at.i <= j < |fmt| && j == NextPercent(fmt, at.i) && Render(fmt, args, at).Some?
    ensures ReadOne(fmt, args, Cursor(j + 1, at.a)) == Some(one)
    ensures Render(fmt, args, one.next) == Some(rest)
    ensures Render(fmt, args, at) == Some(fmt[at.i..j] + one.text + rest)
    ensures Counts(fmt, args, at, n)
         == StoredBy(one.spec, n + (j - at.i)) + Counts(fmt, args, one.next, n + (j - at.i) + |one.text|)
  {
    hide ReadOne, StoredBy;
    one := ReadOne(fmt, args, Cursor(j + 1, at.a)).value;
    rest := Render(fmt, args, one.next).value;
  }

  /** The loop over the format. */
  method FormatLoop(sink: Sink, fmt: seq<char>, args: seq<Arg>) returns (nchar: nat, stored: seq<nat>)
    requires !sink.refused && NUL !in fmt && Render(fmt, args, Cursor(0, 0)).Some?
    modifies sink
    ensures nchar == |sink.out| - |old(sink.out)|
    ensures Sent(old(sink.out), sink.out, Render(fmt, args, Cursor(0, 0)).value, !sink.refused)
    ensures stored <= Counts(fmt, args, Cursor(0, 0), 0)
    ensures !sink.refused ==> stored == Counts(fmt, args, Cursor(0, 0), 0)
  {
    hide Render, ReadOne, NextPercent, Counts, StoredBy;
    ghost var total, o0 := Render(fmt, args, Cursor(0, 0)).value, sink.out;
    ghost var done := [];
    SentNothing(o0);
    hide Sent;
    var px := new Pft();
    var i, a, ok := 0, 0, true;
    nchar, stored := 0, [];
    assert total == done + Render(fmt, args, Cursor(i, a)).value;
    while true
      invariant fresh(px) && fresh(px.ac) && px.Valid() && !sink.refused
      invariant i <= |fmt| && Render(fmt, args, Cursor(i, a)).Some?
      invariant total == done + Render(fmt, args, Cursor(i, a)).value
      invariant Counts(fmt, args, Cursor(0, 0), 0) == stored + Counts(fmt, args, Cursor(i, a), nchar)
      invariant Sent(o0, sink.out, done, true) && nchar == |sink.out| - |o0|
      decreases |fmt| - i
    {
      var s := FindPercent(fmt, i);
      ghost var at, n, o1 := Cursor(i, a), nchar, sink.out;
      ok, nchar := Put(sink, fmt[i..s], nchar);
      ghost var o2 := sink.out;
      InSequence(o0, o1, o2, done, fmt[i..s], true, ok);
      if s == |fmt| {
        RenderEnd(fmt, args, at);
        return;
      }
      ghost var one, behind := RenderStep(fmt, args, at, n, s);
      Regroup(fmt[i..s], one.text, behind);
      Regroup(done, fmt[i..s], one.text + behind);
      Regroup(done + fmt[i..s], one.text, behind);
      done := done + fmt[i..s];
      if !ok {
        SentPart(o0, o2, done, one.text + behind);
        return;
      }
      SentLength(o1, o2, fmt[i..s]);
      var count;
      ok, nchar, i, a, count := PrintDirective(sink, px, fmt, args, s + 1, a, nchar);
      InSequence(o0, o2, sink.out, done, one.text, true, ok);
      done, stored := done + one.text, stored + count;
      if !ok {
        SentPart(o0, sink.out, done, behind);
        return;
      }
      SentLength(o2, sink.out, one.text);
    }
  }

  lemma SentLength(a: seq<char>, b: seq<char>, text: seq<char>)
    requires Sent(a, b, text, true)
    ensures |b| == |a| + |text|
  {
  }

  /**
   `_Printf`: the sink gets the text the format stands for, from the front, until it
   refuses; the value returned is the number of characters it accepted, and each "%n"
   that was reached has stored the number of characters accepted before it.
   */
  method Printf(sink: Sink, fmt: seq<char>, args: seq<Arg>) returns (nchar: nat, stored: seq<nat>)
    requires !sink.refused && NUL !in fmt && Render(fmt, args, Cursor(0, 0)).Some?
    modifies sink
    ensures nchar == |sink.out| - |old(sink.out)|
    ensures var due := old(sink.out) + Render(fmt, args, Cursor(0, 0)).value;
      old(sink.out) <= sink.out <= due && (!sink.refused <==> sink.out == due)
    ensures stored <= Counts(fmt, args, Cursor(0, 0), 0)
    ensures !sink.refused ==> stored == Counts(fmt, args, Cursor(0, 0), 0)
  {
    hide Render, Counts;
    nchar, stored := FormatLoop(sink, fmt, args);
  }

  // ---- What the integer conversions denote

  /** Behind the prefix stand digits that read back as the 64-bit magnitude. */
  lemma IntegerConversionParses(spec: Spec, code: char, prefix: seq<char>, ll: int)
    requires -TWO63 <= ll < TWO63
    ensures var text := IntegerConversion(spec, code, prefix, ll);
      prefix <= text && Parse(Base(code), text[|prefix|..]) == Unsigned(code, ll)
  {
    var digits := Magnitude(code, Unsigned(code, ll), spec.prec);
    var zeros := IntegerZeros(spec.flags, spec.width, spec.prec, |prefix|, |digits|);
    IntegerParsesBack(code, Unsigned(code, ll), spec.prec, zeros);
    hide Magnitude, Parse, IntegerZeros, Zeros, Base, Unsigned;
    assert IntegerConversion(spec, code, prefix, ll) == prefix + (Zeros(zeros) + digits);
  }

  /** Signed conversions print a sign and digits that read back as the argument. */
  lemma SignedParsesBack(spec: Spec, v: int)
    requires IsSignedCode(spec.code) && Matches(spec, IntArg(v))
    ensures var ll := SignedValue(spec.qual, v);
      var sign, text := Sign(ll < 0, spec.flags), Converted(spec, IntArg(v));
      && sign <= text
      && (ll < 0 <==> sign == ['-'])
      && (spec.qual != 'h' ==> ll == v)
      && (spec.qual == 'h' ==> -0x8000 <= ll < 0x8000 && (ll - v) % 0x1_0000 == 0)
      && Parse(10, text[|sign|..]) == if ll < 0 then -ll else ll
  {
    hide IntegerConversion, Parse;
    var ll := SignedValue(spec.qual, v);
    IntegerConversionParses(spec, spec.code, Sign(ll < 0, spec.flags), ll);
  }

  /** The base that the standard names for an unsigned conversion. */
  function Radix(code: char): nat {
    if code == 'o' then 8 else if code == 'u' then 10 else 16
  }

  lemma RadixIsBase(code: char)
    requires IsUnsignedCode(code)
    ensures Radix(code) == Base(code)
  {
  }

  /** The value an unsigned argument of the type the qualifier names stands for. */
  function UnsignedMeaning(qual: char, v: int): int {
    if qual == 'h' then v % 0x1_0000 else if qual == 'L' then v % TWO64 else v % 0x1_0000_0000
  }

  /** The word that is printed and the word that is meant differ only for a negative "%l" argument. */
  lemma PrintedWord(spec: Spec, v: int)
    requires IsUnsignedCode(spec.code) && Matches(spec, IntArg(v)) && spec.qual in {NUL, 'h', 'l', 'L'}
    ensures Unsigned(spec.code, UnsignedValue(spec.qual, v))
         == UnsignedMeaning(spec.qual, v) + if spec.qual == 'l' && v < 0 then TWO64 - 0x1_0000_0000 else 0
    ensures spec.qual == 'l' ==> (v < 0 <==> UnsignedMeaning('l', v) >= 0x8000_0000)
  {
  }

  /**
   Unsigned conversions print the argument's value, except that "%l" reads a 32-bit
   argument as signed: from 2^31 on it prints 2^64 - 2^32 too much.
   */
  lemma UnsignedPrintsMeaningIff(spec: Spec, v: int)
    requires IsUnsignedCode(spec.code) && Matches(spec, IntArg(v)) && spec.qual in {NUL, 'h', 'l', 'L'}
    ensures var prefix, text := RadixPrefix(spec.flags, spec.code), Converted(spec, IntArg(v));
      && prefix <= text
      && var printed, meant := Parse(Radix(spec.code), text[|prefix|..]), UnsignedMeaning(spec.qual, v);
      && (printed == meant <==> !(spec.qual == 'l' && meant >= 0x8000_0000))
      && (spec.qual == 'l' && meant >= 0x8000_0000 ==> printed == meant + TWO64 - 0x1_0000_0000)
  {
    hide IntegerConversion, Parse, Base, Radix, UnsignedMeaning, Unsigned;
    RadixIsBase(spec.code);
    PrintedWord(spec, v);
    IntegerConversionParses(spec, spec.code, RadixPrefix(spec.flags, spec.code), UnsignedValue(spec.qual, v));
  }

  /** '%p' reads the pointer as a signed 32-bit number: addresses from 2^31 on print with 32 ones in front. */
  lemma PointerPrintsAddressIff(spec: Spec, v: int)
    requires spec.code == 'p' && Matches(spec, IntArg(v))
    ensures var address, printed := v % 0x1_0000_0000, Parse(16, Converted(spec, IntArg(v)));
      && (printed == address <==> address < 0x8000_0000)
      && (address >= 0x8000_0000 ==> printed == address + TWO64 - 0x1_0000_0000)
  {
    hide IntegerConversion, Parse;
    IntegerConversionParses(spec, 'x', [], v);
    var text := IntegerConversion(spec, 'x', [], v);
    assert text[0..] == text;
  }
}
