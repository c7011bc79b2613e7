/**
 The probing shuffle: number `i` looks for a free slot from position `i` on, passing as
 many free ones as a random draw says and going round the end as often as needed.
 */
module Shuffle {
  import opened Arith

  const FREE: int := -1

  /** `i | 0x80` as a signed byte. */
  function Mark(i: nat): int {
    i - 0x80
  }

  /** As a byte, number and mark differ by the top bit, and no mark is the free marker. */
  lemma MarkIsByte(i: nat, b: bv8)
    requires i < 0x7f
    ensures Mark(i) % 0x100 == i + 0x80 && -0x80 <= Mark(i) < FREE
    ensures b < 0x80 ==> b | 0x80 == b + 0x80
  {
  }

  /** The position `d` steps on from `start`. */
  function At(start: nat, d: nat, n: nat): (p: nat)
    requires 0 < n
    ensures p < n
  {
    (start + d) % n
  }

  /** How many free slots the first `d` steps from `start` pass. */
  function Seen(slots: seq<int>, start: nat, d: nat): nat
    requires slots != []
  {
    if d == 0 then 0
    else Seen(slots, start, d - 1) + if slots[At(start, d - 1, |slots|)] == FREE then 1 else 0
  }

  /** All free slots: one time round. */
  function FreeCount(slots: seq<int>, start: nat): nat
    requires slots != []
  {
    Seen(slots, start, |slots|)
  }

  /** Going round once more passes every free slot once more. */
  lemma {:induction false} SeenRound(slots: seq<int>, start: nat, d: nat)
    requires slots != []
    ensures Seen(slots, start, d + |slots|) == Seen(slots, start, d) + FreeCount(slots, start)
  {
    if d == 0 {
    } else {
      SeenRound(slots, start, d - 1);
      AtRound(start, d - 1, |slots|);
      assert d + |slots| - 1 == d - 1 + |slots|;
    }
  }

  lemma AtRound(start: nat, d: nat, n: nat)
    requires 0 < n
    ensures At(start, d + n, n) == At(start, d, n)
  {
    DivMod(start + d, n);
    DivModUnique((start + d) / n + 1, n, (start + d) % n);
    assert ((start + d) / n + 1) * n == (start + d) / n * n + n;
  }

  lemma AtNext(start: nat, d: nat, n: nat)
    requires 0 < n
    ensures At(start, d + 1, n) == if At(start, d, n) + 1 >= n then 0 else At(start, d, n) + 1
  {
    var q, r := (start + d) / n, (start + d) % n;
    DivMod(start + d, n);
    if r + 1 == n {
      assert (q + 1) * n == q * n + n;
      DivModUnique(q + 1, n, 0);
    } else {
      DivModUnique(q, n, r + 1);
    }
  }

  lemma {:induction false} SeenMonotone(slots: seq<int>, start: nat, d: nat, e: nat)
    requires slots != [] && d <= e
    ensures Seen(slots, start, d) <= Seen(slots, start, e)
  {
    if d >= e {
    } else {
      SeenMonotone(slots, start, d, e - 1);
    }
  }

  /** A free slot anywhere is passed within one time round. */
  lemma SomeFree(slots: seq<int>, start: nat, p: nat)
    requires p < |slots| && start < |slots| && slots[p] == FREE
    ensures FreeCount(slots, start) > 0
  {
    var n := |slots|;
    var d := if p >= start then p - start else p + n - start;
    if p >= start {
      DivModUnique(0, n, p);
    } else {
      DivModUnique(1, n, p);
    }
    assert At(start, d, n) == p;
    SeenMonotone(slots, start, d + 1, n);
  }

  /** So walking on passes at least one free slot every time round. */
  lemma {:induction false} WalkIsShort(slots: seq<int>, start: nat, d: nat)
    requires slots != [] && FreeCount(slots, start) > 0
    ensures d < (Seen(slots, start, d) + 1) * |slots|
  {
    var n := |slots|;
    if d < n {
      MulMonotone(1, Seen(slots, start, d) + 1, n);
    } else {
      WalkIsShort(slots, start, d - n);
      SeenRound(slots, start, d - n);
      var before, seen := Seen(slots, start, d - n), Seen(slots, start, d);
      MulMonotone(before + 2, seen + 1, n);
      assert (before + 2) * n == (before + 1) * n + n;
    }
  }

  /** The slot a probe with a given draw must find: free, with that many free ones before it, counted round the ring. */
  ghost predicate IsLanding(slots: seq<int>, start: nat, draw: nat, p: nat)
    requires slots != []
  {
    exists d: nat :: d < |slots| && Lands(slots, start, draw, p, d)
  }

  ghost predicate Lands(slots: seq<int>, start: nat, draw: nat, p: nat, d: nat)
    requires slots != []
  {
    && p == At(start, d, |slots|) && slots[p] == FREE
    && FreeCount(slots, start) > 0
    && Seen(slots, start, d) == draw % FreeCount(slots, start)
  }

  /** Where a walk of any length ends is where its last time round ends. */
  lemma {:induction false} LastRound(slots: seq<int>, start: nat, draw: nat, p: nat, d: nat)
    requires slots != [] && FreeCount(slots, start) > 0
    requires p == At(start, d, |slots|) && slots[p] == FREE
    requires Seen(slots, start, d) % FreeCount(slots, start) == draw % FreeCount(slots, start)
    ensures IsLanding(slots, start, draw, p)
    decreases d
  {
    var n, f := |slots|, FreeCount(slots, start);
    if d < n {
      SeenMonotone(slots, start, d + 1, n);
      DivModUnique(0, f, Seen(slots, start, d));
      assert Lands(slots, start, draw, p, d);
    } else {
      AtRound(start, d - n, n);
      SeenRound(slots, start, d - n);
      ModMinus(Seen(slots, start, d - n), f);
      hide Seen, At, FreeCount;
      LastRound(slots, start, draw, p, d - n);
    }
  }

  lemma ModMinus(a: nat, f: nat)
    requires 0 < f
    ensures (a + f) % f == a % f
  {
    DivMod(a, f);
    assert (a / f + 1) * f == a / f * f + f;
    DivModUnique(a / f + 1, f, a % f);
  }

  /** A draw determines where the probe lands. */
  lemma LandingUnique(slots: seq<int>, start: nat, draw: nat, p: nat, p': nat)
    requires slots != [] && IsLanding(slots, start, draw, p) && IsLanding(slots, start, draw, p')
    ensures p == p'
  {
    var d: nat :| d < |slots| && Lands(slots, start, draw, p, d);
    var d': nat :| d' < |slots| && Lands(slots, start, draw, p', d');
    if d < d' {
      SeenMonotone(slots, start, d + 1, d');
    } else if d' < d {
      SeenMonotone(slots, start, d' + 1, d);
    }
  }

  /** The probing loop for one number. */
  method Probe(slots: array<int>, start: nat, draw: nat) returns (position: nat)
    requires start < slots.Length && FREE in slots[..]
    ensures position < slots.Length && IsLanding(slots[..], start, draw, position)
  {
    ghost var s := slots[..];
    var n := slots.Length;
    ghost var free :| 0 <= free < |s| && s[free] == FREE;
    SomeFree(s, start, free);
    position := start;
    var left: int := draw;
    ghost var d := 0;
    DivModUnique(0, n, start);
    hide At, FreeCount;
    while left >= 0
      invariant -1 <= left <= draw && position < n && d >= 0
      invariant left >= 0 ==> position == At(start, d, n) && Seen(s, start, d) == draw - left
      invariant left < 0 ==> s[position] == FREE && position == At(start, d, n) && Seen(s, start, d) == draw
      decreases left + 1, (draw + 1) * n - d
    {
      WalkIsShort(s, start, d);
      MulMonotone(Seen(s, start, d) + 1, draw + 1, n);
      AtNext(start, d, n);
      if slots[position] == FREE {
        left := left - 1;
        if left >= 0 {
          position, d := position + 1, d + 1;
        }
      } else {
        position, d := position + 1, d + 1;
      }
      if position >= n {
        position := 0;
      }
    }
    LastRound(s, start, draw, position, d);
  }

  // ---- The whole shuffle

  function Marks(i: nat): seq<int> {
    seq(i, j requires 0 <= j < i => Mark(j))
  }

  function Frees(k: nat): seq<int> {
    seq(k, _ => FREE)
  }

  /** `i` numbers placed and the rest of the slots free. */
  ghost predicate Partly(slots: seq<int>, i: nat) {
    i <= |slots| && multiset(slots) == multiset(Marks(i)) + multiset(Frees(|slots| - i))
  }

  lemma MarksMore(i: nat)
    ensures Marks(i + 1) == Marks(i) + [Mark(i)]
    ensures multiset(Marks(i + 1)) == multiset(Marks(i)) + multiset{Mark(i)}
  {
    assert Marks(i + 1) == Marks(i) + [Mark(i)];
  }

  lemma FreesMore(k: nat)
    ensures multiset(Frees(k + 1)) == multiset(Frees(k)) + multiset{FREE}
  {
    assert Frees(k + 1) == Frees(k) + [FREE];
  }

  lemma PlaceOne(slots: seq<int>, i: nat, p: nat)
    requires Partly(slots, i) && i < |slots| && p < |slots| && slots[p] == FREE
    ensures Partly(slots[p := Mark(i)], i + 1)
  {
    hide Marks, Frees;
    MarksMore(i);
    FreesMore(|slots| - i - 1);
    assert multiset(slots[p := Mark(i)]) == multiset(slots) - multiset{FREE} + multiset{Mark(i)};
  }

  lemma StillFree(slots: seq<int>, i: nat)
    requires Partly(slots, i) && i < |slots|
    ensures FREE in slots
  {
    FreesMore(|slots| - i - 1);
    hide Marks, Frees;
    assert FREE in multiset(slots);
  }

  lemma AllFree(slots: seq<int>)
    requires forall p :: 0 <= p < |slots| ==> slots[p] == FREE
    ensures Partly(slots, 0)
  {
    assert slots == Frees(|slots|) && Marks(0) == [];
  }

  lemma AllPlaced(slots: seq<int>)
    requires Partly(slots, |slots|)
    ensures multiset(slots) == multiset(Marks(|slots|))
  {
    assert Frees(0) == [];
  }

  /** One number placed where its draw says. */
  ghost predicate Placed(before: seq<int>, after: seq<int>, i: nat, draw: nat) {
    exists p :: 0 <= p < |before| && IsLanding(before, i, draw, p) && after == before[p := Mark(i)]
  }

  /** The slots after each number so far, from all free on. */
  ghost predicate Trail(trail: seq<seq<int>>, n: nat, draws: nat -> nat) {
    && trail != [] && |trail[0]| == n && (forall p :: 0 <= p < n ==> trail[0][p] == FREE)
    && forall i :: 0 <= i < |trail| - 1 ==> Placed(trail[i], trail[i + 1], i, draws(i) % 8)
  }

  lemma TrailExtends(trail: seq<seq<int>>, n: nat, draws: nat -> nat, p: nat)
    requires Trail(trail, n, draws)
    requires var last := trail[|trail| - 1];
      p < |last| && IsLanding(last, |trail| - 1, draws(|trail| - 1) % 8, p)
    ensures var last := trail[|trail| - 1]; Trail(trail + [last[p := Mark(|trail| - 1)]], n, draws)
  {
    hide IsLanding;
  }

  method FreeAll(slots: array<int>)
    modifies slots
    ensures forall p :: 0 <= p < slots.Length ==> slots[p] == FREE
  {
    var i := 0;
    while i < slots.Length
      invariant i <= slots.Length && forall j :: 0 <= j < i ==> slots[j] == FREE
    {
      slots[i] := FREE;
      i := i + 1;
    }
  }

  /**
   The shuffle over any number of slots that fits a signed byte, for any stream of draws
   of 0 to 7. The slots end as a permutation of the marks, and `trail` shows how: each
   number in turn goes to the slot its draw determines.
   */
  method Shuffle(slots: array<int>, draws: nat -> nat) returns (ghost trail: seq<seq<int>>)
    requires 0 < slots.Length <= 0x7f
    modifies slots
    ensures multiset(slots[..]) == multiset(Marks(slots.Length))
    ensures |trail| == slots.Length + 1 && trail[slots.Length] == slots[..]
    ensures |trail[0]| == slots.Length && forall p :: 0 <= p < slots.Length ==> trail[0][p] == FREE
    ensures forall i :: 0 <= i < slots.Length ==> Placed(trail[i], trail[i + 1], i, draws(i) % 8)
  {
    var n := slots.Length;
    FreeAll(slots);
    AllFree(slots[..]);
    trail := [slots[..]];
    assert Trail(trail, n, draws);
    hide Trail, Partly, IsLanding;
    var i := 0;
    while i < n
      invariant i <= n && Partly(slots[..], i)
      invariant |trail| == i + 1 && trail[i] == slots[..] && Trail(trail, n, draws)
    {
      StillFree(slots[..], i);
      ghost var before := slots[..];
      var position := Probe(slots, i, draws(i) % 8);
      PlaceOne(before, i, position);
      TrailExtends(trail, n, draws, position);
      slots[position] := Mark(i);
      assert slots[..] == before[position := Mark(i)];
      trail := trail + [slots[..]];
      i := i + 1;
    }
    AllPlaced(slots[..]);
    TrailMeans(trail, n, draws);
  }

  lemma TrailMeans(trail: seq<seq<int>>, n: nat, draws: nat -> nat)
    requires Trail(trail, n, draws)
    ensures |trail[0]| == n && forall p :: 0 <= p < n ==> trail[0][p] == FREE
    ensures forall i :: 0 <= i < |trail| - 1 ==> Placed(trail[i], trail[i + 1], i, draws(i) % 8)
  {
  }

  /** As a permutation: every mark stands in exactly one slot. */
  lemma EachMarkOnce(slots: seq<int>, i: nat)
    requires multiset(slots) == multiset(Marks(|slots|)) && i < |slots|
    ensures exists p :: 0 <= p < |slots| && slots[p] == Mark(i)
    ensures multiset(slots)[Mark(i)] == 1
  {
    assert Marks(|slots|)[i] == Mark(i) && Mark(i) in multiset(Marks(|slots|));
    assert Mark(i) in multiset(slots);
    assert Mark(i) in slots;
    MarkCount(|slots|, i);
  }

  lemma {:induction false} MarkCount(n: nat, i: nat)
    ensures multiset(Marks(n))[Mark(i)] == if i < n then 1 else 0
  {
    if n == 0 {
    } else {
      MarkCount(n - 1, i);
      MarksMore(n - 1);
    }
  }
}
