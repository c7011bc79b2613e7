/** Digit strings and the numbers they spell. */
module Decimal {
  import opened Arith

  function Pow(base: nat, n: nat): (p: nat)
    requires base > 0
    ensures p > 0
  {
    if n == 0 then 1
    else
      MulMonotone(1, Pow(base, n - 1), base);
      Pow(base, n - 1) * base
  }

  lemma {:induction false} PowAdd(base: nat, a: nat, b: nat)
    requires base > 0
    ensures Pow(base, a + b) == Pow(base, a) * Pow(base, b)
  {
    if b == 0 {
    } else {
      PowAdd(base, a, b - 1);
      MulAssoc(Pow(base, a), Pow(base, b - 1), base);
    }
  }

  lemma MulAssoc(a: int, b: int, c: int)
    ensures (a * b) * c == a * (b * c)
  {
  }

  predicate IsDigit(c: char) {
    '0' <= c <= '9'
  }

  predicate AllDigits(s: seq<char>) {
    forall i :: 0 <= i < |s| ==> IsDigit(s[i])
  }

  function DigitValue(c: char): nat
    requires IsDigit(c)
  {
    c as int - '0' as int
  }

  function Zeros(n: nat): (s: seq<char>)
    ensures |s| == n && AllDigits(s) && forall i :: 0 <= i < n ==> s[i] == '0'
  {
    seq(n, _ => '0')
  }

  /** The number a decimal digit string spells. */
  function Val(s: seq<char>): nat
    requires AllDigits(s)
  {
    if s == [] then 0 else Val(s[..|s| - 1]) * 10 + DigitValue(s[|s| - 1])
  }

  lemma ValPush(s: seq<char>, c: char)
    requires AllDigits(s) && IsDigit(c)
    ensures AllDigits(s + [c]) && Val(s + [c]) == Val(s) * 10 + DigitValue(c)
  {
    assert (s + [c])[..|s|] == s;
  }

  lemma {:induction false} ValAppend(a: seq<char>, b: seq<char>)
    requires AllDigits(a) && AllDigits(b)
    ensures AllDigits(a + b)
    ensures Val(a + b) == Val(a) * Pow(10, |b|) + Val(b)
  {
    if b == [] {
      assert a + b == a;
    } else {
      var b' := b[..|b| - 1];
      ValAppend(a, b');
      assert (a + b)[..|a + b| - 1] == a + b';
      MulAssoc(Val(a), Pow(10, |b'|), 10);
    }
  }

  lemma {:induction false} ValBound(s: seq<char>)
    requires AllDigits(s)
    ensures Val(s) < Pow(10, |s|)
  {
    if s == [] {
    } else {
      ValBound(s[..|s| - 1]);
    }
  }

  lemma {:induction false} ValZeros(n: nat)
    ensures Val(Zeros(n)) == 0
  {
    if n == 0 {
    } else {
      assert Zeros(n)[..n - 1] == Zeros(n - 1);
      ValZeros(n - 1);
    }
  }

  /** Zeros in front change nothing; zeros behind multiply by a power of ten. */
  lemma ValPadded(a: nat, s: seq<char>, b: nat)
    requires AllDigits(s)
    ensures AllDigits(Zeros(a) + s + Zeros(b))
    ensures Val(Zeros(a) + s + Zeros(b)) == Val(s) * Pow(10, b)
  {
    ValZeros(a);
    ValZeros(b);
    ValAppend(Zeros(a), s);
    ValAppend(Zeros(a) + s, Zeros(b));
  }

  /** Cutting digits off the end divides and rounds down. */
  lemma ValTake(s: seq<char>, n: nat)
    requires AllDigits(s) && n <= |s|
    ensures Val(s[..n]) == Val(s) / Pow(10, |s| - n)
  {
    assert s == s[..n] + s[n..];
    ValAppend(s[..n], s[n..]);
    ValBound(s[n..]);
    hide Val, Pow;
    DivModUnique(Val(s[..n]), Pow(10, |s| - n), Val(s[n..]));
  }

  /** The leading digit alone decides on which side of the middle a digit string lies. */
  lemma LeadingDigit(s: seq<char>)
    requires AllDigits(s) && s != []
    ensures DigitValue(s[0]) * Pow(10, |s| - 1) <= Val(s) < (DigitValue(s[0]) + 1) * Pow(10, |s| - 1)
    ensures '5' <= s[0] <==> 2 * Val(s) >= Pow(10, |s|)
    ensures Pow(10, |s|) == 10 * Pow(10, |s| - 1)
  {
    var d, p := DigitValue(s[0]), Pow(10, |s| - 1);
    assert s == s[..1] + s[1..] && s[..1][..0] == [];
    ValAppend(s[..1], s[1..]);
    ValBound(s[1..]);
    assert Val(s[..1]) == d;
    if '5' <= s[0] {
      MulMonotone(5, d, p);
    } else {
      MulMonotone(d + 1, 5, p);
    }
  }
}
