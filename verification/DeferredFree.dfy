/**
 The deferred-free list: pointers wait a number of ticks in a fixed array, and a tick
 removes expired entries by moving the last one into their place.
 */
module DeferredFree {
  const CAPACITY: nat := 0xA00

  type Pointer = int

  /** `unk0` and the countdown `unk4`: a byte the push writes as signed and the tick counts down as unsigned. */
  datatype Entry = Entry(ptr: Pointer, count: int)

  /** The byte that a number leaves behind, read as unsigned. */
  function Byte(v: int): (b: int)
    ensures 0 <= b < 0x100
  {
    v % 0x100
  }

  function Ticked(e: Entry): Entry {
    Entry(e.ptr, Byte(e.count - 1))
  }

  // ---- One tick, regardless of order

  predicate Expires(e: Entry) {
    Ticked(e).count == 0
  }

  /** The entries a tick leaves, each counted down once. */
  function Survivors(s: seq<Entry>): seq<Entry> {
    if s == [] then []
    else if Expires(s[|s| - 1]) then Survivors(s[..|s| - 1])
    else Survivors(s[..|s| - 1]) + [Ticked(s[|s| - 1])]
  }

  /** The pointers a tick frees. */
  function Expired(s: seq<Entry>): seq<Pointer> {
    if s == [] then []
    else if Expires(s[|s| - 1]) then Expired(s[..|s| - 1]) + [s[|s| - 1].ptr]
    else Expired(s[..|s| - 1])
  }

  /** One more entry behind the others. */
  lemma TickPush(s: seq<Entry>, e: Entry)
    ensures Survivors(s + [e]) == if Expires(e) then Survivors(s) else Survivors(s) + [Ticked(e)]
    ensures Expired(s + [e]) == if Expires(e) then Expired(s) + [e.ptr] else Expired(s)
  {
    assert (s + [e])[..|s|] == s;
  }

  lemma {:induction false} SurvivorsAppend(a: seq<Entry>, b: seq<Entry>)
    ensures Survivors(a + b) == Survivors(a) + Survivors(b)
  {
    if b == [] {
      assert a + b == a;
    } else {
      hide Survivors, Expired, Expires, Ticked;
      var b', last := b[..|b| - 1], b[|b| - 1];
      var ab, t := a + b', Ticked(last);
      assert a + b == ab + [last] && b == b' + [last];
      SurvivorsAppend(a, b');
      TickPush(ab, last);
      TickPush(b', last);
      PushBoth(Survivors(ab), Survivors(a), Survivors(b'), t);
    }
  }

  lemma {:induction false} ExpiredAppend(a: seq<Entry>, b: seq<Entry>)
    ensures Expired(a + b) == Expired(a) + Expired(b)
  {
    if b == [] {
      assert a + b == a;
    } else {
      hide Survivors, Expired, Expires, Ticked;
      var b', last := b[..|b| - 1], b[|b| - 1];
      var ab := a + b';
      assert a + b == ab + [last] && b == b' + [last];
      ExpiredAppend(a, b');
      TickPush(ab, last);
      TickPush(b', last);
      PushBoth(Expired(ab), Expired(a), Expired(b'), last.ptr);
    }
  }

  /** A tick over two stretches, as multisets. */
  lemma TickAppend(a: seq<Entry>, b: seq<Entry>)
    ensures multiset(Survivors(a + b)) == multiset(Survivors(a)) + multiset(Survivors(b))
    ensures multiset(Expired(a + b)) == multiset(Expired(a)) + multiset(Expired(b))
  {
    SurvivorsAppend(a, b);
    ExpiredAppend(a, b);
  }

  lemma TickOne(e: Entry)
    ensures multiset(Survivors([e])) == if Expires(e) then multiset{} else multiset{Ticked(e)}
    ensures multiset(Expired([e])) == if Expires(e) then multiset{e.ptr} else multiset{}
  {
    TickPush([], e);
    assert [] + [e] == [e];
  }

  lemma PushBoth<T>(ab: seq<T>, a: seq<T>, b: seq<T>, x: T)
    requires ab == a + b
    ensures ab + [x] == a + (b + [x])
  {
  }

  /** The part of the list still to be visited, after its first entry has expired and the last took its place. */
  function SwapRemoved(s: seq<Entry>): seq<Entry>
    requires s != []
  {
    if |s| == 1 then [] else [s[|s| - 1]] + s[1..|s| - 1]
  }

  /** Moving the last entry to the front loses no entry and visits none twice. */
  lemma SwapRemoveKeepsTick(s: seq<Entry>)
    requires s != [] && Expires(s[0])
    ensures multiset(Survivors(SwapRemoved(s))) == multiset(Survivors(s))
    ensures multiset(Expired(s)) == multiset(Expired(SwapRemoved(s))) + multiset{s[0].ptr}
  {
    hide Survivors, Expired, Expires;
    TickOne(s[0]);
    if |s| == 1 {
      assert s == [s[0]];
      TickNone();
    } else {
      var mid, last := s[1..|s| - 1], s[|s| - 1];
      assert s == [s[0]] + (mid + [last]);
      TickAppend([s[0]], mid + [last]);
      TickAppend(mid, [last]);
      TickAppend([last], mid);
    }
  }

  lemma TickNone()
    ensures Survivors([]) == [] && Expired([]) == []
  {
  }

  lemma StayKeepsTick(s: seq<Entry>)
    requires s != [] && !Expires(s[0])
    ensures multiset(Survivors(s)) == multiset{Ticked(s[0])} + multiset(Survivors(s[1..]))
    ensures multiset(Expired(s)) == multiset(Expired(s[1..]))
  {
    hide Survivors, Expired, Expires;
    assert s == [s[0]] + s[1..];
    TickAppend([s[0]], s[1..]);
    TickOne(s[0]);
  }

  /** Taking one occurrence of `x` away from both sides. */
  lemma WithoutOne<T>(x: T, a: seq<T>, l: seq<T>, r: seq<T>)
    requires multiset([x] + a) == multiset(l + ([x] + r))
    ensures multiset(a) == multiset(l + r)
  {
    assert multiset(a) == multiset([x] + a) - multiset{x};
    assert multiset(l + r) == multiset(l + ([x] + r)) - multiset{x};
  }

  /** What a tick does depends only on which entries there are. */
  lemma {:induction false} TickIgnoresOrder(a: seq<Entry>, b: seq<Entry>)
    requires multiset(a) == multiset(b)
    ensures multiset(Survivors(a)) == multiset(Survivors(b))
    ensures multiset(Expired(a)) == multiset(Expired(b))
  {
    if a == [] {
      assert |multiset(a)| == |multiset(b)|;
    } else {
      hide Survivors, Expired, Expires;
      var x, a' := a[0], a[1..];
      assert a == [x] + a' && x in multiset(b);
      var i :| 0 <= i < |b| && b[i] == x;
      var l, r := b[..i], b[i + 1..];
      assert b == l + ([x] + r);
      WithoutOne(x, a', l, r);
      TickIgnoresOrder(a', l + r);
      TickAppend([x], a');
      TickMoveOut(x, l, r);
    }
  }

  lemma TickMoveOut(x: Entry, l: seq<Entry>, r: seq<Entry>)
    ensures multiset(Survivors(l + ([x] + r))) == multiset(Survivors([x])) + multiset(Survivors(l + r))
    ensures multiset(Expired(l + ([x] + r))) == multiset(Expired([x])) + multiset(Expired(l + r))
  {
    hide Survivors, Expired, Expires;
    TickAppend(l, [x] + r);
    TickAppend([x], r);
    TickAppend(l, r);
  }

  // ---- Lifetimes

  /** The number of ticks a countdown lasts: 1 to 256. */
  function Life(count: int): (n: nat)
    ensures 1 <= n <= 0x100
  {
    (count - 1) % 0x100 + 1
  }

  /** A tick takes one off a countdown's life, and the last one makes it zero. */
  lemma TickShortensLife(e: Entry)
    ensures Expires(e) <==> Life(e.count) == 1
    ensures !Expires(e) ==> Life(Ticked(e).count) == Life(e.count) - 1
  {
    var r := (e.count - 1) % 0x100;
    if r > 0 {
      assert (r - 1) % 0x100 == r - 1;
    }
  }

  /** A delay of 1 to 256 is exactly its own life; any other is not. */
  lemma DelayIsLifeIff(delay: int)
    ensures Life(delay) == delay <==> 1 <= delay <= 0x100
    ensures Life(Byte(delay)) == Life(delay)
  {
  }

  // ---- Whole runs

  /** What has happened between two heap resets, oldest first. */
  datatype Event = Push(ptr: Pointer, delay: int) | Tick

  function Ticks(h: seq<Event>): nat {
    if h == [] then 0 else Ticks(h[..|h| - 1]) + if h[|h| - 1].Tick? then 1 else 0
  }

  /** The pushes of a run with the number of the tick each is due at. */
  datatype Due = Due(ptr: Pointer, at: nat)

  function Dues(h: seq<Event>): seq<Due> {
    if h == [] then []
    else
      var before := h[..|h| - 1];
      match h[|h| - 1]
      case Push(ptr, delay) => Dues(before) + [Due(ptr, Ticks(before) + Life(delay))]
      case Tick => Dues(before)
  }

  /** What was due by tick `now`, in push order. */
  function FreedBy(d: seq<Due>, now: nat): seq<Pointer> {
    if d == [] then []
    else if d[|d| - 1].at <= now then FreedBy(d[..|d| - 1], now) + [d[|d| - 1].ptr]
    else FreedBy(d[..|d| - 1], now)
  }

  /** What was due exactly at tick `now`. */
  function FreedAt(d: seq<Due>, now: nat): seq<Pointer> {
    if d == [] then []
    else if d[|d| - 1].at == now then FreedAt(d[..|d| - 1], now) + [d[|d| - 1].ptr]
    else FreedAt(d[..|d| - 1], now)
  }

  /** The entries still waiting after tick `now`. */
  function Pending(d: seq<Due>, now: nat): seq<Entry> {
    if d == [] then []
    else if d[|d| - 1].at > now then Pending(d[..|d| - 1], now) + [Entry(d[|d| - 1].ptr, Byte(d[|d| - 1].at - now))]
    else Pending(d[..|d| - 1], now)
  }

  predicate DueSoon(d: seq<Due>, now: nat) {
    forall i :: 0 <= i < |d| ==> d[i].at <= now + 0x100
  }

  lemma {:induction false} DuesAreSoon(h: seq<Event>)
    ensures DueSoon(Dues(h), Ticks(h))
  {
    if h == [] {
    } else {
      DuesAreSoon(h[..|h| - 1]);
    }
  }

  /**
   One tick of the list is one tick of the clock: the waiting entries that a tick
   leaves are those due later still, and those it frees are the ones due now.
   */
  lemma {:induction false} TickAdvancesClock(d: seq<Due>, now: nat)
    requires DueSoon(d, now)
    ensures Survivors(Pending(d, now)) == Pending(d, now + 1)
    ensures Expired(Pending(d, now)) == FreedAt(d, now + 1)
  {
    if d == [] {
    } else {
      hide Survivors, Expired, Expires, Byte;
      var before, last := d[..|d| - 1], d[|d| - 1];
      assert DueSoon(before, now) && last.at <= now + 0x100;
      TickAdvancesClock(before, now);
      if last.at > now {
        TickPush(Pending(before, now), Entry(last.ptr, Byte(last.at - now)));
        CountdownStep(last.ptr, last.at - now);
      }
    }
  }

  /** What a tick does to an entry due in `n` ticks. */
  lemma CountdownStep(ptr: Pointer, n: int)
    requires 1 <= n <= 0x100
    ensures Expires(Entry(ptr, Byte(n))) <==> n == 1
    ensures Ticked(Entry(ptr, Byte(n))) == Entry(ptr, Byte(n - 1))
  {
    ByteStep(n);
  }

  lemma ByteStep(n: int)
    ensures Byte(Byte(n) - 1) == Byte(n - 1)
    ensures 1 <= n <= 0x100 ==> (Byte(n - 1) == 0 <==> n == 1)
  {
    var q := n / 0x100;
    assert n == q * 0x100 + Byte(n);
  }

  /** What is freed by a tick is what was freed before it and what is due at it: nothing twice, nothing lost. */
  lemma {:induction false} FreedGrows(d: seq<Due>, now: nat)
    ensures multiset(FreedBy(d, now + 1)) == multiset(FreedBy(d, now)) + multiset(FreedAt(d, now + 1))
  {
    if d == [] {
    } else {
      FreedGrows(d[..|d| - 1], now);
    }
  }

  /** Due `j` is about pointer `p` and has come by tick `now`. */
  predicate Came(d: seq<Due>, j: nat, now: nat, p: Pointer) {
    j < |d| && d[j].ptr == p && d[j].at <= now
  }

  /** Of the first `n` dues those of a pointer that have come by tick `now`. */
  function CameDue(d: seq<Due>, n: nat, now: nat, p: Pointer): set<nat> {
    set j: nat | j < n && Came(d, j, now, p)
  }

  /** A pointer has been freed exactly as often as it was pushed and has come due. */
  lemma FreedExactly(d: seq<Due>, now: nat, p: Pointer)
    ensures multiset(FreedBy(d, now))[p] == |CameDue(d, |d|, now, p)|
  {
    FreedOfFirst(d, |d|, now, p);
    assert d[..|d|] == d;
  }

  lemma {:induction false} FreedOfFirst(d: seq<Due>, n: nat, now: nat, p: Pointer)
    requires n <= |d|
    ensures multiset(FreedBy(d[..n], now))[p] == |CameDue(d, n, now, p)|
  {
    if n == 0 {
      assert CameDue(d, 0, now, p) == {};
    } else {
      FreedOfFirst(d, n - 1, now, p);
      assert d[..n][..n - 1] == d[..n - 1];
      LastCame(d, n - 1, now, p);
      hide CameDue;
    }
  }

  lemma LastCame(d: seq<Due>, n: nat, now: nat, p: Pointer)
    requires n < |d|
    ensures |CameDue(d, n + 1, now, p)| == |CameDue(d, n, now, p)| + if d[n].ptr == p && d[n].at <= now then 1 else 0
  {
    var before := CameDue(d, n, now, p);
    if Came(d, n, now, p) {
      assert CameDue(d, n + 1, now, p) == before + {n};
    } else {
      assert CameDue(d, n + 1, now, p) == before;
    }
  }

  /** Every push is either freed or waiting, at every moment. */
  lemma {:induction false} FreedOrPending(d: seq<Due>, now: nat)
    ensures |FreedBy(d, now)| + |Pending(d, now)| == |d|
  {
    if d == [] {
    } else {
      FreedOrPending(d[..|d| - 1], now);
    }
  }

  /**
   Every push has a due of its own, the one at its place among the pushes, and there are
   no others. It is freed at that tick (see `List.Tick`), which for a delay of 1 to 256,
   and for no other, is exactly that many ticks after the push.
   */
  lemma {:induction false} PushIsFreedOnTime(h: seq<Event>, i: nat)
    requires i < |h| && h[i].Push?
    ensures |Dues(h)| == Pushes(h) && Pushes(h[..i]) < Pushes(h)
    ensures Dues(h)[Pushes(h[..i])] == Due(h[i].ptr, Ticks(h[..i]) + Life(h[i].delay))
    ensures Life(h[i].delay) == h[i].delay <==> 1 <= h[i].delay <= 0x100
  {
    hide Life;
    var before := h[..|h| - 1];
    OneDueEach(h);
    OneDueEach(before);
    if i == |h| - 1 {
      assert h[..i] == before;
    } else {
      PushIsFreedOnTime(before, i);
      assert before[..i] == h[..i];
    }
    DelayIsLifeIff(h[i].delay);
  }

  function Pushes(h: seq<Event>): nat {
    if h == [] then 0 else Pushes(h[..|h| - 1]) + if h[|h| - 1].Push? then 1 else 0
  }

  lemma {:induction false} OneDueEach(h: seq<Event>)
    ensures |Dues(h)| == Pushes(h)
  {
    if h == [] {
    } else {
      OneDueEach(h[..|h| - 1]);
    }
  }

  // ---- Termination of a push onto a full list

  /** The ticks left to wait, summed up. */
  function TotalLife(s: seq<Entry>): nat {
    if s == [] then 0 else Life(s[0].count) + TotalLife(s[1..])
  }

  lemma {:induction false} TotalLifeAppend(a: seq<Entry>, b: seq<Entry>)
    ensures TotalLife(a + b) == TotalLife(a) + TotalLife(b)
  {
    if a == [] {
      assert a + b == b;
    } else {
      TotalLifeAppend(a[1..], b);
      assert (a + b)[1..] == a[1..] + b;
    }
  }

  lemma {:induction false} TotalLifeIgnoresOrder(a: seq<Entry>, b: seq<Entry>)
    requires multiset(a) == multiset(b)
    ensures TotalLife(a) == TotalLife(b)
  {
    if a == [] {
      assert |multiset(a)| == |multiset(b)|;
    } else {
      hide Life;
      var x, a' := a[0], a[1..];
      assert a == [x] + a' && x in multiset(b);
      var i :| 0 <= i < |b| && b[i] == x;
      var l, r := b[..i], b[i + 1..];
      assert b == l + ([x] + r);
      WithoutOne(x, a', l, r);
      TotalLifeIgnoresOrder(a', l + r);
      TotalLifeAppend(l, [x] + r);
      TotalLifeAppend(l, r);
    }
  }

  /** A tick takes exactly one from every entry's remaining life. */
  lemma {:induction false} TickCostsOneEach(s: seq<Entry>)
    ensures TotalLife(Survivors(s)) == TotalLife(s) - |s|
  {
    if s == [] {
    } else {
      var s', last := s[..|s| - 1], s[|s| - 1];
      TickCostsOneEach(s');
      TickShortensLife(last);
      assert s == s' + [last];
      TotalLifeAppend(s', [last]);
      TotalLifeAppend(Survivors(s'), [Ticked(last)]);
      hide Life, Expires;
      assert TotalLife([last]) == Life(last.count) && TotalLife([Ticked(last)]) == Life(Ticked(last).count);
    }
  }

  // ---- The list

  /** In the middle of a tick: `done` has been counted down, `rest` not yet. */
  ghost predicate Progress(done: seq<Entry>, rest: seq<Entry>, freed: seq<Pointer>,
                           start: seq<Entry>, freed0: seq<Pointer>) {
    && multiset(done) + multiset(Survivors(rest)) == multiset(Survivors(start))
    && multiset(freed) + multiset(Expired(rest)) == multiset(freed0) + multiset(Expired(start))
  }

  lemma ProgressStarts(start: seq<Entry>, freed0: seq<Pointer>)
    ensures Progress([], start, freed0, start, freed0)
  {
  }

  /** Both ways through the loop body keep the books balanced. */
  lemma ProgressContinues(done: seq<Entry>, rest: seq<Entry>, freed: seq<Pointer>,
                          start: seq<Entry>, freed0: seq<Pointer>)
    requires Progress(done, rest, freed, start, freed0) && rest != []
    ensures Ticked(rest[0]).ptr == rest[0].ptr
    ensures if Ticked(rest[0]).count == 0
            then Progress(done, SwapRemoved(rest), freed + [rest[0].ptr], start, freed0)
            else Progress(done + [Ticked(rest[0])], rest[1..], freed, start, freed0)
  {
    hide Survivors, Expired, SwapRemoved;
    if Expires(rest[0]) {
      SwapRemoveKeepsTick(rest);
    } else {
      StayKeepsTick(rest);
    }
  }

  lemma ProgressEnds(done: seq<Entry>, freed: seq<Pointer>, start: seq<Entry>, freed0: seq<Pointer>)
    requires Progress(done, [], freed, start, freed0)
    ensures multiset(done) == multiset(Survivors(start))
    ensures multiset(freed) == multiset(freed0) + multiset(Expired(start))
  {
  }

  function TickRun(n: nat): seq<Event> {
    seq(n, _ => Event.Tick)
  }

  lemma SlicesAfterRemove(all: seq<Entry>, after: seq<Entry>, i: nat, count: nat)
    requires i < count <= |all| == |after|
    requires forall k :: 0 <= k < |all| && k != i ==> after[k] == all[k]
    requires i < count - 1 ==> after[i] == all[count - 1]
    ensures after[..i] == all[..i] && after[i..count - 1] == SwapRemoved(all[i..count])
  {
    var rest := all[i..count];
    if |rest| > 1 {
      var a, b := after[i..count - 1], [rest[|rest| - 1]] + rest[1..|rest| - 1];
      assert |a| == |b|;
      forall k | 0 <= k < |a| ensures a[k] == b[k] {
        assert a[k] == after[i + k];
        if k > 0 {
          assert b[k] == rest[1..|rest| - 1][k - 1] == rest[k];
        }
      }
    }
  }

  lemma SlicesAfterStay(all: seq<Entry>, after: seq<Entry>, i: nat, count: nat)
    requires i < count <= |all| && after == all[i := Ticked(all[i])]
    ensures after[..i + 1] == all[..i] + [Ticked(all[i..count][0])] && after[i + 1..count] == all[i..count][1..]
  {
  }

  lemma NoTicks()
    ensures TickRun(0) == []
  {
  }

  lemma MoreTicks(h: seq<Event>, n: nat)
    ensures h + TickRun(n) + [Event.Tick] == h + TickRun(n + 1)
  {
  }

  class List {
    const entries: array<Entry>
    var count: nat
    /** What the free routine was called with, in order. */
    var freed: seq<Pointer>
    ghost var history: seq<Event>

    /**
     The entries are what is due later, each with the ticks it has left, and the pointers
     freed so far are exactly those that were due.
     */
    ghost predicate Valid()
      reads this, entries
    {
      && entries.Length == CAPACITY && count <= CAPACITY
      && multiset(entries[..count]) == multiset(Pending(Dues(history), Ticks(history)))
      && multiset(freed) == multiset(FreedBy(Dues(history), Ticks(history)))
    }

    constructor ()
      ensures Valid() && fresh(entries) && history == [] && count == 0
    {
      entries := new Entry[CAPACITY](_ => Entry(0, 0));
      count, freed, history := 0, [], [];
    }

    /** The loop of a tick: counts every entry down once, frees and removes those that reach zero. */
    method CountDown()
      requires entries.Length == CAPACITY && count <= CAPACITY
      modifies this`count, this`freed, entries
      ensures count <= old(count)
      ensures multiset(entries[..count]) == multiset(Survivors(old(entries[..count])))
      ensures multiset(freed) == multiset(old(freed)) + multiset(Expired(old(entries[..count])))
    {
      hide Progress, Ticked, SwapRemoved;
      ghost var start, freed0 := entries[..count], freed;
      ProgressStarts(start, freed0);
      var i := 0;
      assert entries[..][..0] == [] && entries[..][0..count] == start;
      while i < count
        invariant i <= count <= old(count)
        invariant Progress(entries[..][..i], entries[..][i..count], freed, start, freed0)
        decreases count - i
      {
        ghost var all := entries[..];
        ProgressContinues(all[..i], all[i..count], freed, start, freed0);
        entries[i] := Ticked(entries[i]);
        if entries[i].count == 0 {
          freed := freed + [entries[i].ptr];
          count := count - 1;
          entries[i] := entries[count];
          SlicesAfterRemove(all, entries[..], i, count + 1);
        } else {
          SlicesAfterStay(all, entries[..], i, count);
          i := i + 1;
        }
      }
      assert entries[..][i..count] == [] && entries[..][..i] == entries[..count];
      ProgressEnds(entries[..count], freed, start, freed0);
    }

    /** One tick: what is due now is freed, and everything else waits one tick less. */
    method Tick()
      requires Valid()
      modifies this, entries
      ensures Valid() && history == old(history) + [Event.Tick]
      ensures multiset(freed) == multiset(old(freed)) + multiset(FreedAt(Dues(old(history)), Ticks(old(history)) + 1))
      ensures TotalLife(entries[..count]) == TotalLife(old(entries[..count])) - old(count) && count <= old(count)
    {
      hide Pending, FreedBy, FreedAt, Dues, Ticks, Survivors, Expired, TotalLife;
      ghost var before := entries[..count];
      TickInHistory(history, before);
      TickCostsOneEach(before);
      if count > 0 {
        CountDown();
      } else {
        TickNone();
      }
      TotalLifeIgnoresOrder(entries[..count], Survivors(before));
      history := history + [Event.Tick];
    }

    /** The loop of a push: ticks while the list is full. */
    method MakeRoom() returns (ghost ticks: nat)
      requires Valid()
      modifies this, entries
      ensures Valid() && count < 0xA00 && history == old(history) + TickRun(ticks)
      ensures ticks == 0 <==> old(count) < 0xA00
    {
      hide Pending, FreedBy, FreedAt, Dues, Ticks, TotalLife, TickRun;
      NoTicks();
      ticks := 0;
      while count >= CAPACITY
        invariant Valid() && history == old(history) + TickRun(ticks)
        invariant if ticks == 0 then count == old(count) else old(count) == CAPACITY
        decreases TotalLife(entries[..count])
      {
        MoreTicks(old(history), ticks);
        Tick();
        ticks := ticks + 1;
      }
    }

    /** Queues a pointer; while the list is full, ticks first. */
    method Push(ptr: Pointer, delay: int) returns (ghost ticks: nat)
      requires Valid()
      modifies this, entries
      ensures Valid() && history == old(history) + TickRun(ticks) + [Event.Push(ptr, delay)] && count <= 0xA00
      ensures ticks == 0 <==> old(count) < 0xA00
    {
      hide Valid, TickRun;
      ticks := MakeRoom();
      Store(ptr, delay);
    }

    /** Writes the new entry behind the others. */
    method Store(ptr: Pointer, delay: int)
      requires Valid() && count < CAPACITY
      modifies this, entries
      ensures Valid() && history == old(history) + [Event.Push(ptr, delay)] && count <= 0xA00
    {
      hide Pending, FreedBy, FreedAt, Dues, Ticks, Byte;
      PushInHistory(history, ptr, delay);
      ghost var before := entries[..count];
      entries[count] := Entry(ptr, Byte(delay));
      count := count + 1;
      assert entries[..count] == before + [Entry(ptr, Byte(delay))];
      history := history + [Event.Push(ptr, delay)];
    }
  }

  /** One more tick in the history is one tick of the waiting entries, in whatever order they stand. */
  lemma TickInHistory(h: seq<Event>, entries: seq<Entry>)
    requires multiset(entries) == multiset(Pending(Dues(h), Ticks(h)))
    ensures var h' := h + [Event.Tick];
      && multiset(Survivors(entries)) == multiset(Pending(Dues(h'), Ticks(h')))
      && multiset(Expired(entries)) == multiset(FreedAt(Dues(h), Ticks(h) + 1))
      && multiset(FreedBy(Dues(h'), Ticks(h'))) == multiset(FreedBy(Dues(h), Ticks(h))) + multiset(Expired(entries))
  {
    hide Pending, FreedBy, FreedAt, Dues, Ticks, Survivors, Expired;
    TickDues(h);
    TickIgnoresOrder(entries, Pending(Dues(h), Ticks(h)));
    DuesAreSoon(h);
    TickAdvancesClock(Dues(h), Ticks(h));
    FreedGrows(Dues(h), Ticks(h));
  }

  lemma TickDues(h: seq<Event>)
    ensures Dues(h + [Event.Tick]) == Dues(h) && Ticks(h + [Event.Tick]) == Ticks(h) + 1
  {
    assert (h + [Event.Tick])[..|h|] == h;
  }

  /** A push adds one entry, whose countdown lasts its life, and frees nothing. */
  lemma PushInHistory(h: seq<Event>, ptr: Pointer, delay: int)
    ensures var h' := h + [Event.Push(ptr, delay)];
      && Ticks(h') == Ticks(h)
      && Pending(Dues(h'), Ticks(h')) == Pending(Dues(h), Ticks(h)) + [Entry(ptr, Byte(delay))]
      && FreedBy(Dues(h'), Ticks(h')) == FreedBy(Dues(h), Ticks(h))
  {
    var h' := h + [Event.Push(ptr, delay)];
    assert h'[..|h|] == h;
    var d, due := Dues(h), Due(ptr, Ticks(h) + Life(delay));
    assert Dues(h') == d + [due] && (d + [due])[..|d|] == d;
    ByteOfLife(delay);
    hide Byte, Life;
  }

  lemma ByteOfLife(delay: int)
    ensures Byte(Life(delay)) == Byte(delay)
  {
    var q, r := (delay - 1) / 0x100, (delay - 1) % 0x100;
    assert delay == q * 0x100 + (r + 1);
  }
}
