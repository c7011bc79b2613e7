/** The record that `_Printf` shares with its conversions, and the text it stands for. */
module PrintField {
  import opened Decimal

  datatype Flags = Flags(space: bool, plus: bool, minus: bool, hash: bool, zero: bool)

  const NO_FLAGS := Flags(false, false, false, false, false)

  /** Length of the buffer `ac` of `_Printf`. */
  const AC_LEN: nat := 32

  /** The `n` characters from `lo`. */
  function Slice(a: seq<char>, lo: nat, n: nat): seq<char>
    requires lo + n <= |a|
  {
    a[lo..lo + n]
  }

  /** Two stretches, each followed by zeros. */
  function Join(first: seq<char>, nz1: nat, second: seq<char>, nz2: nat): seq<char> {
    first + Zeros(nz1) + second + Zeros(nz2)
  }

  /**
   `_Pft`: a prefix of `n0` characters in `ac`, two stretches of `n1` and `n2`
   characters at the pointer `s` (an array and an offset), and three runs of zeros.
   */
  class Pft {
    const ac: array<char>
    var s: array<char>
    var off: nat
    var n0: nat
    var nz0: nat
    var n1: nat
    var nz1: nat
    var n2: nat
    var nz2: nat
    var prec: int
    var width: int
    var flags: Flags
    var qual: char

    constructor ()
      ensures fresh(ac) && Valid()
    {
      ac := new char[AC_LEN](_ => '\0');
      s := ac;
      off, n0, nz0, n1, nz1, n2, nz2 := 0, 0, 0, 0, 0, 0, 0;
      prec, width, flags, qual := -1, 0, NO_FLAGS, '\0';
    }

    ghost predicate Valid()
      reads this`s, this`off, this`n0, this`n1, this`n2
    {
      ac.Length == AC_LEN && n0 <= AC_LEN && off + n1 + n2 <= s.Length
    }

    /** The sign or the "0x" in front. */
    ghost function Prefix(): seq<char>
      requires n0 <= ac.Length
      reads this`n0, ac
    {
      Slice(ac[..], 0, n0)
    }

    ghost function First(): seq<char>
      requires Valid()
      reads this`s, this`off, this`n0, this`n1, this`n2, s
    {
      Slice(s[..], off, n1)
    }

    ghost function Second(): seq<char>
      requires Valid()
      reads this`s, this`off, this`n0, this`n1, this`n2, s
    {
      Slice(s[..], off + n1, n2)
    }

    /** What follows the prefix and its zero padding. */
    ghost function Body(): seq<char>
      requires Valid()
      reads this`s, this`off, this`n0, this`n1, this`n2, this`nz1, this`nz2, s
    {
      Join(First(), nz1, Second(), nz2)
    }

    /** The whole conversion, before padding with spaces. */
    ghost function Text(): seq<char>
      requires Valid()
      reads this, s, ac
    {
      Prefix() + Zeros(nz0) + Body()
    }

    /** A number conversion writes behind its prefix in `ac`. */
    ghost predicate InBuffer()
      reads this`s, this`off, this`n0, this`n1, this`n2
    {
      Valid() && s == ac && off == n0
    }

    /** The state in which a number conversion starts. */
    ghost predicate Cleared()
      reads this
    {
      InBuffer() && nz0 == n1 == nz1 == n2 == nz2 == 0
    }

    /** Copies characters behind the first stretch, which grows: `memcpy` and the update of `n1`. */
    method AddFirst(src: seq<char>)
      requires InBuffer() && n2 == 0 && off + n1 + |src| <= AC_LEN
      modifies ac, this`n1
      ensures InBuffer() && n1 == old(n1) + |src|
      ensures First() == old(First()) + src && (old(n1) == 0 ==> First() == src)
      ensures Second() == [] && Prefix() == old(Prefix())
    {
      hide Slice;
      ghost var before := ac[..];
      Copy(ac, off + n1, src);
      Before(before, ac[..], off + n1, 0, n0);
      Behind(before, ac[..], off, n1, src);
      n1 := n1 + |src|;
      EmptySlice(ac[..], off + n1);
    }

    /** Copies characters behind the second stretch. */
    method AddSecond(src: seq<char>)
      requires InBuffer() && off + n1 + n2 + |src| <= AC_LEN
      modifies ac, this`n2
      ensures InBuffer() && n2 == old(n2) + |src|
      ensures Second() == old(Second()) + src && (old(n2) == 0 ==> Second() == src)
      ensures First() == old(First()) && Prefix() == old(Prefix())
    {
      hide Slice;
      ghost var before := ac[..];
      Copy(ac, off + n1 + n2, src);
      Before(before, ac[..], off + n1 + n2, 0, n0);
      Before(before, ac[..], off + n1 + n2, off, n1);
      Behind(before, ac[..], off + n1, n2, src);
      n2 := n2 + |src|;
    }
  }

  lemma EmptySlice(a: seq<char>, lo: nat)
    requires lo <= |a|
    ensures Slice(a, lo, 0) == []
  {
  }

  /** What stands before the copied part is unchanged. */
  lemma Before(a: seq<char>, b: seq<char>, at: nat, lo: nat, n: nat)
    requires lo + n <= at <= |a| == |b| && b[..at] == a[..at]
    ensures Slice(b, lo, n) == Slice(a, lo, n)
  {
    assert a[..at][lo..lo + n] == a[lo..lo + n] && b[..at][lo..lo + n] == b[lo..lo + n];
  }

  /** A stretch that ends where the copied part begins grows by it. */
  lemma Behind(a: seq<char>, b: seq<char>, lo: nat, n: nat, src: seq<char>)
    requires lo + n + |src| <= |a| == |b| && b[..lo + n] == a[..lo + n] && b[lo + n..lo + n + |src|] == src
    ensures Slice(b, lo, n + |src|) == Slice(a, lo, n) + src
    ensures n == 0 ==> Slice(b, lo, n + |src|) == src
  {
    Before(a, b, lo + n, lo, n);
    assert b[lo..lo + n + |src|] == b[lo..lo + n] + b[lo + n..lo + n + |src|];
  }

  /** `my_memcpy`. */
  method Copy(dst: array<char>, at: nat, src: seq<char>)
    requires at + |src| <= dst.Length
    modifies dst
    ensures dst[..at] == old(dst[..at]) && dst[at..at + |src|] == src
  {
    for i := 0 to |src|
      invariant dst[..at] == old(dst[..at]) && dst[at..at + i] == src[..i]
    {
      dst[at + i] := src[i];
    }
  }
}
