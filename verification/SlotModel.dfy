/**
 The slot map without its pages: one flat sequence of slots and the queue of
 recycled slots. The paged class in `SlotMap` refines this machine; the
 guarantees over whole runs are proved about it in `SlotRuns`.
 */
module SlotModel {
  import Arith
  import opened Common
  import opened SlotKeys

  /** Live holds a value, Queued waits in the recycling queue, Retired is worn out. */
  datatype Status = Live | Queued | Retired

  datatype Slot<T> = Slot(version: nat, status: Status, value: T)

  datatype Config = Config(pageSize: nat, minFree: nat, layout: Layout) {
    ghost predicate Valid() {
      0 < pageSize && layout.Valid()
    }
  }

  datatype Model<T> = Model(slots: seq<Slot<T>>, queue: seq<nat>)

  function Empty<T>(): Model<T> {
    Model([], [])
  }

  // ---- Operations

  /** The slot the next `emplace` hands out: the oldest recycled one if enough are waiting, else a new one. */
  function NextSlot<T>(c: Config, m: Model<T>): nat
    requires c.Valid()
  {
    if |m.queue| > c.minFree then m.queue[0] else |m.slots|
  }

  function NextVersion<T>(c: Config, m: Model<T>): nat
    requires c.Valid() && Inv(c, m)
  {
    if NextSlot(c, m) < |m.slots| then m.slots[NextSlot(c, m)].version else MIN_VERSION
  }

  function NextKey<T>(c: Config, m: Model<T>): Key
    requires c.Valid() && Inv(c, m)
  {
    Make(c.layout, NextVersion(c, m), NextSlot(c, m))
  }

  function Put<T>(slots: seq<Slot<T>>, i: nat, slot: Slot<T>): seq<Slot<T>>
    requires i <= |slots|
  {
    if i < |slots| then slots[i := slot] else slots + [slot]
  }

  function Emplace<T>(c: Config, m: Model<T>, value: T): Model<T>
    requires c.Valid() && Inv(c, m)
  {
    var i := NextSlot(c, m);
    Model(Put(m.slots, i, Slot(NextVersion(c, m), Live, value)), if i < |m.slots| then m.queue[1..] else m.queue)
  }

  /** What erasing does to one slot: bump the version, or retire the slot when it is worn out. */
  function Erased<T>(c: Config, s: Slot<T>): Slot<T> {
    if s.status != Live then s
    else if s.version == c.layout.maxVersion then s.(status := Retired)
    else s.(status := Queued, version := s.version + 1)
  }

  /** Erases whatever is in slot `i`, if anything: the unchecked half of `eraseImpl`. */
  function EraseSlot<T>(c: Config, m: Model<T>, i: nat): Model<T>
    requires i < |m.slots|
  {
    if m.slots[i].status != Live then m
    else
      var s := Erased(c, m.slots[i]);
      Model(m.slots[i := s], if s.status == Queued then m.queue + [i] else m.queue)
  }

  /** A key addresses a live value: what `erase` and `pop` act on. */
  predicate Addresses<T>(c: Config, m: Model<T>, k: Key)
    requires c.Valid()
  {
    var i := ToIndex(c.layout, k);
    i < |m.slots| && m.slots[i].status == Live && m.slots[i].version == ToVersion(c.layout, k)
  }

  function EraseKey<T>(c: Config, m: Model<T>, k: Key): Model<T>
    requires c.Valid()
  {
    if Addresses(c, m, k) then EraseSlot(c, m, ToIndex(c.layout, k)) else m
  }

  /** Erases slots `i..` in index order. */
  function EraseFrom<T>(c: Config, m: Model<T>, i: nat): Model<T>
    decreases |m.slots| - i
  {
    if i >= |m.slots| then m else EraseFrom(c, EraseSlot(c, m, i), i + 1)
  }

  // ---- Lookup

  /** The first slot of page `p`. */
  function Base(c: Config, p: nat): nat {
    p * c.pageSize
  }

  function PageOf(c: Config, i: nat): nat
    requires c.Valid()
  {
    i / c.pageSize
  }

  function CellOf(c: Config, i: nat): nat
    requires c.Valid()
  {
    i % c.pageSize
  }

  /** The page of slots `base..` is full and all of it worn out. */
  ghost predicate DeadAt<T>(c: Config, m: Model<T>, base: nat) {
    base + c.pageSize <= |m.slots|
    && forall i :: base <= i < base + c.pageSize ==> m.slots[i].status == Retired
  }

  /** All slots of page `p` are worn out, so its memory has been given back. */
  ghost predicate PageDead<T>(c: Config, m: Model<T>, p: nat) {
    DeadAt(c, m, Base(c, p))
  }

  /** The page and the cell of a slot lead back to the slot. */
  lemma AddressOf(c: Config, i: nat)
    requires c.Valid()
    ensures i == Base(c, PageOf(c, i)) + CellOf(c, i) && CellOf(c, i) < c.pageSize
  {
    Arith.DivMod(i, c.pageSize);
  }

  /** Different pages hold different slots. */
  lemma BasesApart(c: Config, p: nat, p': nat)
    requires p < p'
    ensures Base(c, p) + c.pageSize <= Base(c, p')
  {
    Arith.MulMonotone(p + 1, p', c.pageSize);
  }

  /** What `has_key` tests: index in range, page present, versions equal. The tombstone is not consulted. */
  ghost predicate Hit<T>(c: Config, m: Model<T>, k: Key)
    requires c.Valid()
  {
    var i := ToIndex(c.layout, k);
    i < |m.slots| && !PageDead(c, m, PageOf(c, i)) && m.slots[i].version == ToVersion(c.layout, k)
  }

  ghost function Get<T>(c: Config, m: Model<T>, k: Key): Option<T>
    requires c.Valid()
  {
    if Hit(c, m, k) then Some(m.slots[ToIndex(c.layout, k)].value) else None
  }

  // ---- Counting

  /** How many of the slots `lo..hi` have status `s`. */
  function Count<T>(slots: seq<Slot<T>>, s: Status, lo: nat, hi: nat): (n: nat)
    requires lo <= hi <= |slots|
    ensures n <= hi - lo
    decreases hi
  {
    if hi == lo then 0 else Count(slots, s, lo, hi - 1) + if slots[hi - 1].status == s then 1 else 0
  }

  /** Every slot has exactly one status. */
  lemma {:induction false} CountsPartition<T>(slots: seq<Slot<T>>, lo: nat, hi: nat)
    requires lo <= hi <= |slots|
    ensures Count(slots, Live, lo, hi) + Count(slots, Queued, lo, hi) + Count(slots, Retired, lo, hi) == hi - lo
    decreases hi
  {
    if lo >= hi {
    } else {
      CountsPartition(slots, lo, hi - 1);
    }
  }

  /** Changing one slot moves the count by what that slot gained or lost. */
  lemma {:induction false} CountUpdate<T>(slots: seq<Slot<T>>, i: nat, slot: Slot<T>, s: Status, lo: nat, hi: nat)
    requires lo <= hi <= |slots| && i < |slots|
    ensures Count(slots[i := slot], s, lo, hi) == Count(slots, s, lo, hi)
         + if lo <= i < hi then (if slot.status == s then 1 else 0) - (if slots[i].status == s then 1 else 0) else 0
    decreases hi
  {
    if lo >= hi {
    } else {
      CountUpdate(slots, i, slot, s, lo, hi - 1);
    }
  }

  lemma {:induction false} CountAppend<T>(slots: seq<Slot<T>>, slot: Slot<T>, s: Status, lo: nat, hi: nat)
    requires lo <= hi <= |slots|
    ensures Count(slots + [slot], s, lo, hi) == Count(slots, s, lo, hi)
    decreases hi
  {
    if lo >= hi {
    } else {
      CountAppend(slots, slot, s, lo, hi - 1);
    }
  }

  lemma CountLast<T>(slots: seq<Slot<T>>, s: Status)
    requires slots != []
    ensures Count(slots, s, 0, |slots|)
         == Count(slots, s, 0, |slots| - 1) + if slots[|slots| - 1].status == s then 1 else 0
  {
  }

  lemma {:induction false} CountSplit<T>(slots: seq<Slot<T>>, s: Status, lo: nat, mid: nat, hi: nat)
    requires lo <= mid <= hi <= |slots|
    ensures Count(slots, s, lo, hi) == Count(slots, s, lo, mid) + Count(slots, s, mid, hi)
    decreases hi
  {
    if mid >= hi {
    } else {
      CountSplit(slots, s, lo, mid, hi - 1);
    }
  }

  /** A range holds only slots of status `s` exactly when all of it is counted. */
  lemma {:induction false} CountFull<T>(slots: seq<Slot<T>>, s: Status, lo: nat, hi: nat)
    requires lo <= hi <= |slots|
    ensures Count(slots, s, lo, hi) == hi - lo <==> forall i :: lo <= i < hi ==> slots[i].status == s
    decreases hi
  {
    if lo >= hi {
    } else {
      CountFull(slots, s, lo, hi - 1);
    }
  }

  lemma {:induction false} NoneCounted<T>(slots: seq<Slot<T>>, s: Status, lo: nat, hi: nat)
    requires lo <= hi <= |slots| && forall j :: lo <= j < hi ==> slots[j].status != s
    ensures Count(slots, s, lo, hi) == 0
    decreases hi
  {
    if hi <= lo {
    } else {
      NoneCounted(slots, s, lo, hi - 1);
    }
  }

  // ---- Invariant

  predicate SlotsOk<T>(c: Config, slots: seq<Slot<T>>) {
    forall i :: 0 <= i < |slots| ==>
      && MIN_VERSION <= slots[i].version <= c.layout.maxVersion
      && (slots[i].status == Retired ==> slots[i].version == c.layout.maxVersion)
  }

  /** Queued slots are in the queue exactly once, and nothing else is. */
  ghost predicate QueueOk<T>(m: Model<T>) {
    && (forall j :: 0 <= j < |m.queue| ==> m.queue[j] < |m.slots| && m.slots[m.queue[j]].status == Queued)
    && (forall j, j' :: 0 <= j < j' < |m.queue| ==> m.queue[j] != m.queue[j'])
    && (forall i :: 0 <= i < |m.slots| && m.slots[i].status == Queued ==> i in m.queue)
    && |m.queue| == Count(m.slots, Queued, 0, |m.slots|)
  }

  ghost predicate Inv<T>(c: Config, m: Model<T>) {
    SlotsOk(c, m.slots) && QueueOk(m)
  }

  /** Taking the front of the queue into use keeps the queue exact. */
  lemma TakeFrontKeepsQueue<T>(m: Model<T>, slot: Slot<T>)
    requires QueueOk(m) && m.queue != [] && slot.status == Live
    ensures QueueOk(Model(m.slots[m.queue[0] := slot], m.queue[1..]))
  {
    var i := m.queue[0];
    var m' := Model(m.slots[i := slot], m.queue[1..]);
    CountUpdate(m.slots, i, slot, Queued, 0, |m.slots|);
    forall x | 0 <= x < |m'.slots| && m'.slots[x].status == Queued
      ensures x in m'.queue
    {
      assert x in m.queue;
      assert m.queue == [i] + m'.queue;
    }
  }

  lemma AppendKeepsQueue<T>(m: Model<T>, slot: Slot<T>)
    requires QueueOk(m) && slot.status == Live
    ensures QueueOk(Model(m.slots + [slot], m.queue))
  {
    CountAppend(m.slots, slot, Queued, 0, |m.slots|);
  }

  lemma PutBackKeepsQueue<T>(m: Model<T>, i: nat, slot: Slot<T>)
    requires QueueOk(m) && i < |m.slots| && m.slots[i].status == Live && slot.status == Queued
    ensures QueueOk(Model(m.slots[i := slot], m.queue + [i]))
  {
    CountUpdate(m.slots, i, slot, Queued, 0, |m.slots|);
    assert forall x :: x in m.queue ==> x in m.queue + [i];
  }

  lemma RetireKeepsQueue<T>(m: Model<T>, i: nat, slot: Slot<T>)
    requires QueueOk(m) && i < |m.slots| && m.slots[i].status == Live && slot.status == Retired
    ensures QueueOk(Model(m.slots[i := slot], m.queue))
  {
    CountUpdate(m.slots, i, slot, Queued, 0, |m.slots|);
  }

  /** `emplace` hands out a slot that is free, and one more value is live. */
  lemma EmplaceKeepsInv<T>(c: Config, m: Model<T>, value: T)
    requires c.Valid() && Inv(c, m)
    ensures Inv(c, Emplace(c, m, value))
    ensures NextSlot(c, m) <= |m.slots| && 1 <= NextVersion(c, m) <= c.layout.maxVersion
    ensures NextSlot(c, m) < |m.slots| ==> m.slots[NextSlot(c, m)].status == Queued
    ensures Count(Emplace(c, m, value).slots, Live, 0, |Emplace(c, m, value).slots|)
         == Count(m.slots, Live, 0, |m.slots|) + 1
  {
    hide Count;
    var i := NextSlot(c, m);
    var slot := Slot(NextVersion(c, m), Live, value);
    if i < |m.slots| {
      TakeFrontKeepsQueue(m, slot);
      CountUpdate(m.slots, i, slot, Live, 0, |m.slots|);
    } else {
      AppendKeepsQueue(m, slot);
      CountAppend(m.slots, slot, Live, 0, |m.slots|);
      CountLast(m.slots + [slot], Live);
    }
  }

  lemma EraseSlotKeepsInv<T>(c: Config, m: Model<T>, i: nat)
    requires Inv(c, m) && i < |m.slots|
    ensures Inv(c, EraseSlot(c, m, i)) && |EraseSlot(c, m, i).slots| == |m.slots|
    ensures Count(EraseSlot(c, m, i).slots, Live, 0, |m.slots|)
         == Count(m.slots, Live, 0, |m.slots|) - if m.slots[i].status == Live then 1 else 0
  {
    var s := Erased(c, m.slots[i]);
    if m.slots[i].status == Live {
      CountUpdate(m.slots, i, s, Live, 0, |m.slots|);
      if s.status == Queued {
        PutBackKeepsQueue(m, i, s);
      } else {
        RetireKeepsQueue(m, i, s);
      }
    }
  }

  /** Clearing from slot `i` on erases each slot from there, and touches none before it. */
  lemma {:induction false} EraseFromEffect<T>(c: Config, m: Model<T>, i: nat)
    requires i <= |m.slots|
    ensures |EraseFrom(c, m, i).slots| == |m.slots|
    ensures forall j :: 0 <= j < |m.slots| ==>
      EraseFrom(c, m, i).slots[j] == if j < i then m.slots[j] else Erased(c, m.slots[j])
    decreases |m.slots| - i
  {
    if i >= |m.slots| {
    } else {
      EraseFromEffect(c, EraseSlot(c, m, i), i + 1);
    }
  }

  lemma {:induction false} EraseFromKeepsInv<T>(c: Config, m: Model<T>, i: nat)
    requires Inv(c, m) && i <= |m.slots|
    ensures Inv(c, EraseFrom(c, m, i))
    decreases |m.slots| - i
  {
    if i >= |m.slots| {
    } else {
      EraseSlotKeepsInv(c, m, i);
      EraseFromKeepsInv(c, EraseSlot(c, m, i), i + 1);
    }
  }

  /** Slots that hold nothing may be skipped when clearing. */
  lemma {:induction false} EraseFromSkips<T>(c: Config, m: Model<T>, i: nat, j: nat)
    requires i <= j <= |m.slots| && forall x :: i <= x < j ==> m.slots[x].status != Live
    ensures EraseFrom(c, m, i) == EraseFrom(c, m, j)
    decreases j - i
  {
    if i >= j {
    } else {
      EraseFromSkips(c, m, i + 1, j);
    }
  }

  /** Clearing leaves nothing live. */
  lemma ClearEmpties<T>(c: Config, m: Model<T>)
    ensures var m' := EraseFrom(c, m, 0); Count(m'.slots, Live, 0, |m'.slots|) == 0
  {
    var m' := EraseFrom(c, m, 0);
    EraseFromEffect(c, m, 0);
    assert forall j :: 0 <= j < |m'.slots| ==> m'.slots[j].status != Live;
    NoneCounted(m'.slots, Live, 0, |m'.slots|);
  }

  /** How many of the first `p` pages have been given back. */
  ghost function DeadPages<T>(c: Config, m: Model<T>, p: nat): nat {
    if p == 0 then 0 else DeadPages(c, m, p - 1) + if PageDead(c, m, p - 1) then 1 else 0
  }

  // ---- Iteration order

  datatype Item<T> = Item(key: Key, value: T)

  function SlotItem<T>(c: Config, slots: seq<Slot<T>>, i: nat): Item<T>
    requires c.Valid() && i < |slots|
  {
    Item(Make(c.layout, slots[i].version, i), slots[i].value)
  }

  /** The keys and values of the live slots from `i` on, in index order. */
  function ItemsFrom<T>(c: Config, slots: seq<Slot<T>>, i: nat): seq<Item<T>>
    requires c.Valid()
    decreases |slots| - i
  {
    if i >= |slots| then []
    else if slots[i].status == Live then [SlotItem(c, slots, i)] + ItemsFrom(c, slots, i + 1)
    else ItemsFrom(c, slots, i + 1)
  }

  /** The first live slot from `i` on, or the end. */
  function NextLive<T>(slots: seq<Slot<T>>, i: nat): nat
    decreases |slots| - i
  {
    if i >= |slots| || slots[i].status == Live then i else NextLive(slots, i + 1)
  }

  /** Stepping from live slot to live slot leaves none out. */
  lemma {:induction false} NextLiveIsNextItem<T>(c: Config, slots: seq<Slot<T>>, i: nat)
    requires c.Valid() && i <= |slots|
    ensures var j := NextLive(slots, i);
      && i <= j <= |slots|
      && (j < |slots| ==> slots[j].status == Live)
      && ItemsFrom(c, slots, i) == ItemsFrom(c, slots, j)
    decreases |slots| - i
  {
    if i < |slots| && slots[i].status != Live {
      NextLiveIsNextItem(c, slots, i + 1);
    }
  }

  ghost predicate ItemIsLive<T>(c: Config, slots: seq<Slot<T>>, lo: nat, item: Item<T>)
    requires c.Valid()
  {
    var i := ToIndex(c.layout, item.key);
    lo <= i < |slots| && slots[i].status == Live && item == SlotItem(c, slots, i)
  }

  ghost predicate Ascending<T>(c: Config, items: seq<Item<T>>)
    requires c.Valid()
  {
    forall j, j' :: 0 <= j < j' < |items| ==> ToIndex(c.layout, items[j].key) < ToIndex(c.layout, items[j'].key)
  }

  /** Every item is a live slot from `i` on. */
  lemma {:induction false} ItemsAreLive<T>(c: Config, slots: seq<Slot<T>>, i: nat)
    requires c.Valid() && |slots| <= c.layout.indexSpan
    ensures forall item :: item in ItemsFrom(c, slots, i) ==> ItemIsLive(c, slots, i, item)
    decreases |slots| - i
  {
    if i >= |slots| {
    } else {
      ItemsAreLive(c, slots, i + 1);
      PackRoundTrip(c.layout, slots[i].version, i, 0);
      hide Make, ToIndex;
    }
  }

  lemma PrependAscends<T>(c: Config, item: Item<T>, rest: seq<Item<T>>)
    requires c.Valid() && Ascending(c, rest)
    requires forall x :: x in rest ==> ToIndex(c.layout, item.key) < ToIndex(c.layout, x.key)
    ensures Ascending(c, [item] + rest)
  {
    hide ToIndex;
  }

  /** Items come in strictly increasing slot order, so each slot is visited once. */
  lemma {:induction false} ItemsAscend<T>(c: Config, slots: seq<Slot<T>>, i: nat)
    requires c.Valid() && |slots| <= c.layout.indexSpan
    ensures Ascending(c, ItemsFrom(c, slots, i))
    decreases |slots| - i
  {
    if i >= |slots| {
    } else {
      ItemsAscend(c, slots, i + 1);
      ItemsAreLive(c, slots, i + 1);
      if slots[i].status == Live {
        var item, rest := SlotItem(c, slots, i), ItemsFrom(c, slots, i + 1);
        PackRoundTrip(c.layout, slots[i].version, i, 0);
        hide Make, ToIndex, Ascending;
        forall x | x in rest ensures i < ToIndex(c.layout, x.key) {
          assert ItemIsLive(c, slots, i + 1, x);
        }
        PrependAscends(c, item, rest);
      }
    }
  }

  /** Every live slot is among the items, and there are as many items as live slots. */
  lemma {:induction false} ItemsComplete<T>(c: Config, slots: seq<Slot<T>>, i: nat)
    requires c.Valid() && i <= |slots|
    ensures |ItemsFrom(c, slots, i)| == Count(slots, Live, i, |slots|)
    ensures forall x :: i <= x < |slots| && slots[x].status == Live ==>
      SlotItem(c, slots, x) in ItemsFrom(c, slots, i)
    decreases |slots| - i
  {
    hide Make;
    if i >= |slots| {
    } else {
      ItemsComplete(c, slots, i + 1);
      CountSplit(slots, Live, i, i + 1, |slots|);
    }
  }

  /** A yielded key looks up the yielded value if and only if its version is not the invalid one. */
  lemma ItemLooksUp<T>(c: Config, m: Model<T>, item: Item<T>)
    requires c.Valid() && Inv(c, m) && |m.slots| <= c.layout.indexSpan
    requires item in ItemsFrom(c, m.slots, 0)
    ensures Get(c, m, item.key) == Some(item.value) <==> ToVersion(c.layout, item.key) != INVALID_VERSION
  {
    ItemsAreLive(c, m.slots, 0);
    var i := ToIndex(c.layout, item.key);
    assert ItemIsLive(c, m.slots, 0, item);
    PackRoundTrip(c.layout, m.slots[i].version, i, 0);
    SmallVersion(c.layout, m.slots[i].version);
    NotDeadWhileUsed(c, m, i);
  }

  /** A live slot's page is never dead. */
  lemma NotDeadWhileUsed<T>(c: Config, m: Model<T>, i: nat)
    requires c.Valid() && i < |m.slots| && m.slots[i].status != Retired
    ensures !PageDead(c, m, PageOf(c, i))
  {
    AddressOf(c, i);
  }
}
