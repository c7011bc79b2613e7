/**
 Decimal rounding in the digit buffer of `_Ldtob`: leading zeros are skipped, then
 a run of nines or zeros is stripped from the end and a carry may move the front.
 The float scaling that fills the buffer is not part of this model.
 */
module Rounding {
  import opened Arith
  import opened Decimal

  /** `s` without its trailing `c`s. */
  function StripEnd(s: seq<char>, c: char): (t: seq<char>)
    ensures |t| <= |s| && t == s[..|t|]
    ensures t != [] ==> t[|t| - 1] != c
    ensures forall i :: |t| <= i < |s| ==> s[i] == c
  {
    if s != [] && s[|s| - 1] == c then StripEnd(s[..|s| - 1], c) else s
  }

  /** Rounded digits, and by how much the exponent goes up. */
  datatype Rounded = Rounded(digits: seq<char>, carry: nat)

  /** The first dropped digit asks for rounding up. */
  predicate RoundsUp(d: seq<char>, nsig: nat) {
    nsig < |d| && '5' <= d[nsig]
  }

  function Round(d: seq<char>, nsig: nat): Rounded
    requires AllDigits(d) && 0 < nsig <= |d|
  {
    if RoundsUp(d, nsig) then
      var kept := StripEnd(d[..nsig], '9');
      if kept == [] then Rounded(['1'], 1)
      else Rounded(kept[..|kept| - 1] + [kept[|kept| - 1] + 1 as char], 0)
    else Rounded(StripEnd(d[..nsig], '0'), 0)
  }

  /** `q` is the nearest integer to `v / 10^k`, halves going up. */
  predicate Nearest(q: nat, v: nat, k: nat) {
    (2 * q - 1) * Pow(10, k) <= 2 * v < (2 * q + 1) * Pow(10, k)
  }

  /** There is only one nearest integer. */
  lemma NearestUnique(q: nat, q': nat, v: nat, k: nat)
    requires Nearest(q, v, k) && Nearest(q', v, k)
    ensures q == q'
  {
    if q < q' {
      MulMonotone(2 * q + 1, 2 * q' - 1, Pow(10, k));
    }
    if q' < q {
      MulMonotone(2 * q' + 1, 2 * q - 1, Pow(10, k));
    }
  }

  /**
   The rounded digits denote the input rounded half up to `nsig` significant digits,
   and they are in lowest terms: no zero at either end.
   */
  ghost predicate IsRounding(d: seq<char>, nsig: nat, r: Rounded)
    requires AllDigits(d) && nsig <= |d|
  {
    && AllDigits(r.digits) && r.digits != []
    && r.digits[0] != '0' && r.digits[|r.digits| - 1] != '0'
    && |r.digits| <= nsig + r.carry
    && Nearest(Val(r.digits) * Pow(10, nsig + r.carry - |r.digits|), Val(d), |d| - nsig)
  }

  /** A number `h * p + t` lies nearest to `h` or to `h + 1`, depending on which half `t` is in. */
  lemma NearestOfSplit(h: nat, t: nat, p: nat)
    requires t < p
    ensures var q := if 2 * t >= p then h + 1 else h;
      (2 * q - 1) * p <= 2 * (h * p + t) < (2 * q + 1) * p
  {
    var x := h * p;
    assert (2 * h + 1) * p == 2 * x + p;
    assert (2 * h - 1) * p == 2 * x - p;
    assert (2 * (h + 1) + 1) * p == 2 * x + 3 * p;
    assert (2 * (h + 1) - 1) * p == 2 * x + p;
  }

  /** Where the cut digits lie decides the direction: the value is split at `nsig`. */
  lemma NearestByDigit(d: seq<char>, nsig: nat)
    requires AllDigits(d) && 0 < nsig <= |d|
    ensures Nearest(Val(d[..nsig]) + if RoundsUp(d, nsig) then 1 else 0, Val(d), |d| - nsig)
  {
    var tail := d[nsig..];
    assert d == d[..nsig] + tail;
    ValAppend(d[..nsig], tail);
    ValBound(tail);
    if tail != [] {
      LeadingDigit(tail);
    }
    hide Pow, Val;
    NearestOfSplit(Val(d[..nsig]), Val(tail), Pow(10, |d| - nsig));
  }

  /** Stripped nines and zeros are powers of ten. */
  lemma {:induction false} NinesValue(m: nat)
    ensures AllDigits(seq(m, _ => '9')) && Val(seq(m, _ => '9')) + 1 == Pow(10, m)
  {
    if m == 0 {
    } else {
      NinesValue(m - 1);
      assert seq(m, _ => '9')[..m - 1] == seq(m - 1, _ => '9');
    }
  }

  /** Raising the last digit, if it is not a nine, adds one. */
  lemma BumpLast(kept: seq<char>)
    requires AllDigits(kept) && kept != [] && kept[|kept| - 1] != '9'
    ensures var b := kept[..|kept| - 1] + [kept[|kept| - 1] + 1 as char];
      AllDigits(b) && Val(b) == Val(kept) + 1
  {
    var n := |kept| - 1;
    var b := kept[..n] + [kept[n] + 1 as char];
    assert b[..n] == kept[..n];
  }

  /** Adding one in the last place: the nines turn to zeros and the digit before them goes up. */
  lemma BumpValue(s: seq<char>)
    requires AllDigits(s) && StripEnd(s, '9') != []
    ensures var kept := StripEnd(s, '9'); var b := kept[..|kept| - 1] + [kept[|kept| - 1] + 1 as char];
      AllDigits(b) && Val(b) * Pow(10, |s| - |kept|) == Val(s) + 1
  {
    var kept := StripEnd(s, '9');
    var m := |s| - |kept|;
    var nines := seq(m, _ => '9');
    assert s == kept + nines;
    NinesValue(m);
    ValAppend(kept, nines);
    BumpLast(kept);
    hide Pow, Val;
    Distribute(Val(kept), Pow(10, m));
  }

  lemma Distribute(a: int, p: int)
    ensures (a + 1) * p == a * p + p
  {
  }

  lemma StrippedZerosValue(s: seq<char>)
    requires AllDigits(s)
    ensures var kept := StripEnd(s, '0');
      AllDigits(kept) && Val(kept) * Pow(10, |s| - |kept|) == Val(s)
  {
    var kept := StripEnd(s, '0');
    var m := |s| - |kept|;
    assert s == kept + Zeros(m);
    ValAppend(kept, Zeros(m));
    ValZeros(m);
  }

  lemma AllNinesValue(s: seq<char>)
    requires AllDigits(s) && StripEnd(s, '9') == []
    ensures Val(s) + 1 == Pow(10, |s|)
  {
    assert s == seq(|s|, _ => '9');
    NinesValue(|s|);
  }

  lemma RoundUpIsRounding(d: seq<char>, nsig: nat)
    requires AllDigits(d) && 0 < nsig <= |d| && d[0] != '0' && RoundsUp(d, nsig)
    ensures IsRounding(d, nsig, Round(d, nsig))
  {
    hide Nearest, Pow;
    NearestByDigit(d, nsig);
    if StripEnd(d[..nsig], '9') == [] {
      AllNinesValue(d[..nsig]);
      assert Round(d, nsig).digits[..0] == [];
      assert Val(Round(d, nsig).digits) == 1;
    } else {
      hide Val;
      BumpValue(d[..nsig]);
    }
  }

  lemma RoundDownIsRounding(d: seq<char>, nsig: nat)
    requires AllDigits(d) && 0 < nsig <= |d| && d[0] != '0' && !RoundsUp(d, nsig)
    ensures IsRounding(d, nsig, Round(d, nsig))
  {
    hide Nearest, Pow, Val;
    NearestByDigit(d, nsig);
    StrippedZerosValue(d[..nsig]);
    assert d[..nsig][0] != '0';
  }

  /** The strip-and-carry result is the rounding, for every buffer and every cut. */
  lemma RoundIsRounding(d: seq<char>, nsig: nat)
    requires AllDigits(d) && 0 < nsig <= |d| && d[0] != '0'
    ensures IsRounding(d, nsig, Round(d, nsig))
  {
    hide IsRounding, Round;
    if RoundsUp(d, nsig) {
      RoundUpIsRounding(d, nsig);
    } else {
      RoundDownIsRounding(d, nsig);
    }
  }

  /** The first digit that is not zero; the buffer is known to hold one. */
  predicate HasDigit(s: seq<char>) {
    exists i :: 0 <= i < |s| && s[i] != '0'
  }

  function LeadingZeros(s: seq<char>): (z: nat)
    requires HasDigit(s)
    ensures z < |s| && s[z] != '0'
    ensures forall i :: 0 <= i < z ==> s[i] == '0'
  {
    if s[0] != '0' then 0
    else
      assert HasDigit(s[1..]) by { var i :| 0 <= i < |s| && s[i] != '0'; assert s[1..][i - 1] != '0'; }
      1 + LeadingZeros(s[1..])
  }

  /** The zeros in front are the same whatever follows the first digit. */
  lemma LeadingZerosOf(s: seq<char>, t: seq<char>)
    requires s <= t && HasDigit(s)
    ensures HasDigit(t) && LeadingZeros(t) == LeadingZeros(s)
  {
    var i :| 0 <= i < |s| && s[i] != '0';
    assert t[i] != '0';
  }

  /**
   The zero skip: `gen` digits start at `buff[1]`; returns where the first significant
   one is, how many are left, and the exponent of that one. With no digit left it runs
   on into the cells behind, and the number left is zero or less.
   */
  method SkipZeros(buff: array<char>, gen: nat, xexp: int) returns (p: nat, gen': int, xexp': int)
    requires 1 + gen <= buff.Length && HasDigit(buff[1..])
    ensures p == 1 + LeadingZeros(buff[1..]) < buff.Length
    ensures p + gen' == 1 + gen
    ensures xexp' == xexp - (p - 1)
  {
    p, gen', xexp' := 1, gen, xexp;
    ghost var s := buff[1..];
    ghost var z := LeadingZeros(s);
    while buff[p] == '0'
      invariant 1 <= p <= 1 + z
      invariant p + gen' == 1 + gen && xexp' == xexp - (p - 1)
      decreases 1 + z - p
    {
      assert buff[p] == s[p - 1];
      p, gen', xexp' := p + 1, gen' - 1, xexp' - 1;
    }
    assert buff[p] == s[p - 1];
  }

  /**
   The strip-and-carry loop, in place: `buff[p0..p0 + gen]` are the digits and a '0'
   stands in front of them. The carry runs into that guard when all kept digits are nines.
   */
  method RoundInPlace(buff: array<char>, p0: nat, gen: nat, nsig0: nat, xexp0: int)
    returns (p: nat, nsig: nat, xexp: int)
    requires 0 < p0 && p0 + gen <= buff.Length && 0 < nsig0 <= gen
    requires AllDigits(buff[p0..p0 + gen]) && buff[p0] != '0' && buff[p0 - 1] == '0'
    modifies buff
    ensures var r := Round(old(buff[p0..p0 + gen]), nsig0);
      && p + nsig <= buff.Length && r.carry <= 1 && 0 < nsig
      && buff[p..p + nsig] == r.digits
      && xexp == xexp0 + r.carry
      && p == p0 - r.carry
  {
    hide Val, Pow;
    ghost var d := buff[p0..p0 + gen];
    p, nsig, xexp := p0, nsig0, xexp0;
    var drop := if nsig < gen && '5' <= buff[p + nsig] then '9' else '0';
    assert drop == '9' <==> RoundsUp(d, nsig0) by {
      if nsig0 < gen { assert d[nsig0] == buff[p + nsig0]; }
    }
    ghost var kept := StripEnd(d[..nsig0], drop);
    assert drop == '0' ==> kept != [] by { assert d[..nsig0][0] == buff[p0]; }
    var n: int := nsig - 1;
    while buff[p + n] == drop
      invariant |kept| - 1 <= n < nsig0 && -1 <= n && nsig == n + 1
      invariant buff[p0..p0 + gen] == d
      decreases n
    {
      assert n >= 0 ==> buff[p + n] == d[..nsig0][n];
      nsig := nsig - 1;
      n := n - 1;
    }
    assert n >= 0 ==> buff[p + n] == d[..nsig0][n];
    assert n == |kept| - 1;
    if drop == '9' {
      buff[p + n] := buff[p + n] + 1 as char;
    }
    assert n >= 0 ==> buff[p..p + n] == d[..n] == kept[..n];
    if n < 0 {
      p, nsig, xexp := p - 1, nsig + 1, xexp + 1;
    }
  }
}
