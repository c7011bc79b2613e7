/** The iterators of the slot map: they skip tombstones and pages that have been given back. */
module SlotIterator {
  import opened SlotKeys
  import opened SlotModel
  import opened SlotMap

  class Iterator<T> {
    const slotMap: SlotMap<T>
    var currentIndex: nat

    /** The iterator stands on a live slot, or at the end. */
    ghost predicate Valid()
      reads this, slotMap
    {
      && slotMap.Valid()
      && (currentIndex == End(slotMap)
          || (currentIndex < |slotMap.model.slots| && slotMap.model.slots[currentIndex].status == Live))
    }

    /** `begin()`: the first live slot. */
    constructor (slotMap: SlotMap<T>)
      requires slotMap.Valid()
      ensures this.slotMap == slotMap && Valid()
      ensures Remaining() == ItemsFrom(slotMap.config, slotMap.model.slots, 0)
    {
      this.slotMap := slotMap;
      currentIndex := End(slotMap);
      new;
      EndIsPastSlots(slotMap);
      hide SlotMap.Valid, Make;
      if slotMap.pages == [] {
        return;
      }
      var index := SkipTombstones(slotMap, 0);
      NextLiveIsNextItem(slotMap.config, slotMap.model.slots, 0);
      currentIndex := index;
    }

    /** What is still to come, the current slot included. */
    ghost function Remaining(): seq<Item<T>>
      requires Valid()
      reads this, slotMap
    {
      ItemsFrom(slotMap.config, slotMap.model.slots, currentIndex)
    }

    lemma NothingRemains()
      requires Valid() && currentIndex == End(slotMap)
      ensures Remaining() == []
    {
      EndIsPastSlots(slotMap);
    }

    /** Dereferencing yields the next remaining item; its key is rebuilt from the slot's version. */
    method Current() returns (item: Item<T>)
      requires Valid() && currentIndex != End(slotMap)
      ensures Remaining() != [] && item == Remaining()[0]
    {
      var page, cell := PageOf(slotMap.config, currentIndex), CellOf(slotMap.config, currentIndex);
      Find(slotMap.config, slotMap.pages, slotMap.freeIndices, slotMap.numItems, slotMap.maxValidIndex,
           slotMap.model, currentIndex);
      hide Represents, Make, PageOf, CellOf, PageDead, Base;
      item := Item(Make(slotMap.config.layout, slotMap.pages[page].meta[cell].version, currentIndex),
                   slotMap.pages[page].values[cell]);
    }

    /** `operator++`: moves past exactly one item. */
    method Advance()
      requires Valid() && currentIndex != End(slotMap)
      modifies this
      ensures Valid() && Remaining() == old(Remaining())[1..]
    {
      EndIsPastSlots(slotMap);
      hide SlotMap.Valid, Make;
      NextLiveIsNextItem(slotMap.config, slotMap.model.slots, currentIndex + 1);
      currentIndex := SkipTombstones(slotMap, currentIndex + 1);
    }
  }

  function End<T>(slotMap: SlotMap<T>): nat
    reads slotMap
  {
    slotMap.maxValidIndex + 1
  }

  lemma EndIsPastSlots<T>(slotMap: SlotMap<T>)
    requires slotMap.Valid()
    ensures slotMap.model.slots != [] ==> End(slotMap) == |slotMap.model.slots|
    ensures slotMap.model.slots == [] <==> slotMap.pages == []
    ensures slotMap.model.slots == [] ==> End(slotMap) == 1
  {
  }

  /** The loop both `begin()` and `operator++` run. */
  method SkipTombstones<T>(slotMap: SlotMap<T>, start: nat) returns (index: nat)
    requires slotMap.Valid() && slotMap.model.slots != [] && start <= |slotMap.model.slots|
    ensures index == NextLive(slotMap.model.slots, start)
    ensures index == End(slotMap) || (index < |slotMap.model.slots| && slotMap.model.slots[index].status == Live)
  {
    EndIsPastSlots(slotMap);
    hide SlotMap.Valid;
    index := start;
    while index <= slotMap.maxValidIndex
      invariant start <= index <= |slotMap.model.slots|
      invariant NextLive(slotMap.model.slots, start) == NextLive(slotMap.model.slots, index)
    {
      var tombstone := slotMap.IsTombstone(index);
      if !tombstone {
        break;
      }
      index := index + 1;
    }
  }

  /**
   A whole `for` loop over `items()`: reaches the end, and visits exactly the live
   slots, each once and in increasing index order (see `ItemsAscend`, `ItemsComplete`).
   */
  method ForEach<T>(slotMap: SlotMap<T>) returns (items: seq<Item<T>>)
    requires slotMap.Valid()
    ensures items == ItemsFrom(slotMap.config, slotMap.model.slots, 0)
    ensures |items| == slotMap.numItems
  {
    ItemCount(slotMap);
    hide SlotMap.Valid, Iterator.Remaining, ItemsFrom;
    var it := new Iterator(slotMap);
    hide Iterator.Valid;
    ghost var all := ItemsFrom(slotMap.config, slotMap.model.slots, 0);
    items := [];
    while it.currentIndex != End(slotMap)
      invariant it.slotMap == slotMap && it.Valid()
      invariant items + it.Remaining() == all
      decreases |it.Remaining()|
    {
      var item := it.Current();
      ghost var rest := it.Remaining();
      it.Advance();
      assert rest == [item] + it.Remaining();
      items := items + [item];
    }
    it.NothingRemains();
  }

  lemma ItemCount<T>(slotMap: SlotMap<T>)
    requires slotMap.Valid()
    ensures |ItemsFrom(slotMap.config, slotMap.model.slots, 0)| == slotMap.numItems
  {
    hide Count, Inv, KeysOk;
    ItemsComplete(slotMap.config, slotMap.model.slots, 0);
  }
}
