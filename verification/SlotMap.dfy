/** The slot map itself: pages, recycled keys and counters, updated in place. */
module SlotMap {
  import Arith
  import opened Common
  import opened SlotKeys
  import opened SlotModel
  import opened SlotPages

  datatype EraseResult = NotFound | ErasedAndIndexRecycled | ErasedAndPageDeactivated

  /** The recycling queue holds, in order, the keys its slots will be handed out under. */
  ghost predicate KeysOk<T>(c: Config, keys: seq<Key>, m: Model<T>)
    requires c.Valid()
  {
    && |keys| == |m.queue|
    && forall j :: 0 <= j < |keys| ==>
         m.queue[j] < |m.slots| && keys[j] == Make(c.layout, m.slots[m.queue[j]].version, m.queue[j])
  }

  /** The concrete pages, keys and counters represent the model. */
  ghost predicate Represents<T>(c: Config, pages: seq<Page<T>>, keys: seq<Key>, items: nat, max: nat, m: Model<T>)
    requires c.Valid()
  {
    && Inv(c, m)
    && |m.slots| <= c.layout.indexSpan
    && PagesOk(c, pages, m.slots)
    && KeysOk(c, keys, m)
    && items == Count(m.slots, Live, 0, |m.slots|)
    && max == (if m.slots == [] then 0 else |m.slots| - 1)
  }

  /** Queued keys depend only on the versions of the queued slots. */
  lemma KeysKept<T>(c: Config, keys: seq<Key>, m: Model<T>, m': Model<T>)
    requires c.Valid() && KeysOk(c, keys, m) && m'.queue == m.queue && |m.slots| <= |m'.slots|
    requires forall j :: 0 <= j < |m.queue| ==> m'.slots[m.queue[j]] == m.slots[m.queue[j]]
    ensures KeysOk(c, keys, m')
  {
    hide Make;
  }

  /** The slot at the front of the queue is queued nowhere else, and no queued slot is live. */
  lemma QueueFacts<T>(m: Model<T>)
    requires QueueOk(m)
    ensures forall j :: 0 <= j < |m.queue| ==> m.queue[j] < |m.slots| && m.slots[m.queue[j]].status == Queued
    ensures forall j :: 1 <= j < |m.queue| ==> m.queue[j] != m.queue[0]
  {
  }

  /** The oldest recycled key names the oldest queued slot, and the others stay good once it is taken. */
  lemma TakeFrontKey<T>(c: Config, keys: seq<Key>, m: Model<T>, value: T)
    requires c.Valid() && Inv(c, m) && KeysOk(c, keys, m) && |keys| > c.minFree
    requires |m.slots| <= c.layout.indexSpan
    ensures ToIndex(c.layout, keys[0]) == NextSlot(c, m) < |m.slots| && keys[0] == NextKey(c, m)
    ensures m.slots[NextSlot(c, m)].status == Queued
    ensures KeysOk(c, keys[1..], Emplace(c, m, value))
  {
    QueueFacts(m);
    PackRoundTrip(c.layout, m.slots[m.queue[0]].version, m.queue[0], 0);
    hide Make, ToIndex, Count, QueueOk, SlotsOk;
  }

  lemma AppendKeepsKeys<T>(c: Config, keys: seq<Key>, m: Model<T>, value: T)
    requires c.Valid() && Inv(c, m) && KeysOk(c, keys, m) && |keys| <= c.minFree
    ensures NextSlot(c, m) == |m.slots| && NextKey(c, m) == Make(c.layout, MIN_VERSION, |m.slots|)
    ensures Emplace(c, m, value) == Model(m.slots + [Slot(MIN_VERSION, Live, value)], m.queue)
    ensures KeysOk(c, keys, Emplace(c, m, value))
  {
    hide Make, Count, QueueOk, SlotsOk;
    KeysKept(c, keys, m, Emplace(c, m, value));
  }

  /** The key queued by an erase is the one its slot will be handed out under. */
  lemma EraseKeepsKeys<T>(c: Config, keys: seq<Key>, m: Model<T>, i: nat, s: Slot<T>)
    requires c.Valid() && QueueOk(m) && KeysOk(c, keys, m) && i < |m.slots| && m.slots[i].status == Live
    ensures KeysOk(c, keys, Model(m.slots[i := s], m.queue))
    ensures KeysOk(c, keys + [Make(c.layout, s.version, i)], Model(m.slots[i := s], m.queue + [i]))
  {
    QueueFacts(m);
    hide Make, Count, QueueOk;
    KeysKept(c, keys, m, Model(m.slots[i := s], m.queue));
  }

  /** Handing out the oldest recycled slot: its cell comes back to life with the new value. */
  function RevivedPage<T>(page: Page<T>, cell: nat, value: T): Page<T>
    requires cell < |page.meta| == |page.values|
  {
    page.(values := page.values[cell := value], meta := page.meta[cell := page.meta[cell].(tombstone := false)])
  }

  lemma RecycledRepresents<T>(c: Config, pages: seq<Page<T>>, keys: seq<Key>, items: nat, max: nat, m: Model<T>,
                              value: T)
    requires c.Valid() && Represents(c, pages, keys, items, max, m) && |keys| > c.minFree
    ensures var i := ToIndex(c.layout, keys[0]); var p, e := PageOf(c, i), CellOf(c, i);
      && p < |pages| && pages[p].present && e < |pages[p].meta| == |pages[p].values|
      && keys[0] == NextKey(c, m)
      && Represents(c, pages[p := RevivedPage(pages[p], e, value)], keys[1..], items + 1, max, Emplace(c, m, value))
  {
    TakeFrontKey(c, keys, m, value);
    EmplaceKeepsInv(c, m, value);
    hide PageOk, KeysOk, Inv, ToIndex, Make, Base, PageDead, Count, NextKey, PageOf, CellOf;
    var i := ToIndex(c.layout, keys[0]);
    StoredSlot(c, pages, m, i);
    var p, e := PageOf(c, i), CellOf(c, i);
    var slot := Emplace(c, m, value).slots[i];
    CellRewritten(c, pages[p], m.slots, Base(c, p), e, slot, pages[p].meta[e].(tombstone := false));
    OneSlotChanged(c, pages, m.slots, p, e, slot, RevivedPage(pages[p], e, value));
  }

  lemma AppendedRepresents<T>(c: Config, pages: seq<Page<T>>, pages': seq<Page<T>>, keys: seq<Key>, items: nat,
                              max: nat, m: Model<T>, value: T)
    requires c.Valid() && Represents(c, pages, keys, items, max, m)
    requires |keys| <= c.minFree && |m.slots| < c.layout.indexSpan
    requires PagesOk(c, pages', m.slots + [Slot(MIN_VERSION, Live, value)])
    ensures Make(c.layout, MIN_VERSION, |m.slots|) == NextKey(c, m)
    ensures max <= |m.slots|
    ensures Represents(c, pages', keys, items + 1, |m.slots|, Emplace(c, m, value))
  {
    AppendKeepsKeys(c, keys, m, value);
    EmplaceKeepsInv(c, m, value);
    hide PagesOk, KeysOk, Inv, Make, Count, NextKey;
  }

  /** Erasing a slot that still has versions left: its key goes to the end of the queue. */
  lemma QueuedRepresents<T>(c: Config, pages: seq<Page<T>>, keys: seq<Key>, items: nat, max: nat, m: Model<T>,
                            i: nat, meta: Meta)
    requires c.Valid() && Represents(c, pages, keys, items, max, m)
    requires i < |m.slots| && m.slots[i].status == Live && m.slots[i].version != c.layout.maxVersion
    requires meta == Meta(m.slots[i].version + 1, true, false)
    ensures var p, e := PageOf(c, i), CellOf(c, i);
      && items > 0 && p < |pages| && e < |pages[p].meta|
      && Represents(c, pages[p := pages[p].(meta := pages[p].meta[e := meta])],
                    keys + [Make(c.layout, m.slots[i].version + 1, i)], items - 1, max, EraseSlot(c, m, i))
    ensures !PageDead(c, EraseSlot(c, m, i), PageOf(c, i))
  {
    EraseKeepsKeys(c, keys, m, i, Erased(c, m.slots[i]));
    EraseSlotKeepsInv(c, m, i);
    NotDeadWhileUsed(c, EraseSlot(c, m, i), i);
    hide PageOk, KeysOk, Inv, Make, Base, PageDead, Count, PageOf, CellOf;
    StoredSlot(c, pages, m, i);
    var p, e := PageOf(c, i), CellOf(c, i);
    var page, slot := pages[p], Erased(c, m.slots[i]);
    CellRewritten(c, page, m.slots, Base(c, p), e, slot, meta);
    assert page.values[e := slot.value] == page.values;
    OneSlotChanged(c, pages, m.slots, p, e, slot, page.(meta := page.meta[e := meta]));
  }

  /** Erasing a slot at its last version: it retires, and its page with it if it was the last one. */
  lemma RetiredRepresents<T>(c: Config, pages: seq<Page<T>>, keys: seq<Key>, items: nat, max: nat, m: Model<T>,
                             i: nat, meta: Meta)
    requires c.Valid() && Represents(c, pages, keys, items, max, m)
    requires i < |m.slots| && m.slots[i].status == Live && m.slots[i].version == c.layout.maxVersion
    requires meta == Meta(m.slots[i].version, true, true)
    ensures var p, e := PageOf(c, i), CellOf(c, i);
      && items > 0 && p < |pages| && e < |pages[p].meta|
      && Represents(c, pages[p := WornPage(c, pages[p], e, meta)], keys, items - 1, max, EraseSlot(c, m, i))
      && (!WornPage(c, pages[p], e, meta).present <==> PageDead(c, EraseSlot(c, m, i), p))
  {
    EraseKeepsKeys(c, keys, m, i, Erased(c, m.slots[i]));
    EraseSlotKeepsInv(c, m, i);
    hide PageOk, KeysOk, Inv, Make, Base, DeadAt, Count, PageOf, CellOf;
    StoredSlot(c, pages, m, i);
    var p, e := PageOf(c, i), CellOf(c, i);
    var slot := Erased(c, m.slots[i]);
    CellWornOut(c, pages[p], m.slots, Base(c, p), e, slot, meta);
    OneSlotChanged(c, pages, m.slots, p, e, slot, WornPage(c, pages[p], e, meta));
    FreedIffDead(c, WornPage(c, pages[p], e, meta), EraseSlot(c, m, i), Base(c, p));
  }

  /** Where slot `i` is stored; an index beyond the slots leads to no page. */
  lemma Find<T>(c: Config, pages: seq<Page<T>>, keys: seq<Key>, items: nat, max: nat, m: Model<T>, i: nat)
    requires c.Valid() && Represents(c, pages, keys, items, max, m)
    ensures i < |m.slots| ==> i <= max && MIN_VERSION <= m.slots[i].version
    ensures i < |m.slots| ==> StoredAt(c, pages, m, i, PageOf(c, i), CellOf(c, i))
    ensures i >= |m.slots| ==> i > max || pages == []
  {
    hide KeysOk, PageOk, QueueOk, Count, Base;
    if i < |m.slots| {
      StoredSlot(c, pages, m, i);
    }
  }

  // ---- Walking the pages in order

  lemma FirstBase(c: Config)
    ensures Base(c, 0) == 0
  {
  }

  /** Page `p` covers `used` slots from its base; it is full unless the slots end there. */
  ghost predicate Extent<T>(c: Config, m: Model<T>, p: nat, used: nat) {
    && 0 < used <= c.pageSize
    && Base(c, p) + used <= |m.slots|
    && Base(c, p + 1) == Base(c, p) + c.pageSize
    && (used == c.pageSize || Base(c, p) + used == |m.slots|)
  }

  lemma PageExtent<T>(c: Config, pages: seq<Page<T>>, keys: seq<Key>, items: nat, max: nat, m: Model<T>, p: nat)
    requires c.Valid() && Represents(c, pages, keys, items, max, m) && p < |pages|
    ensures Extent(c, m, p, pages[p].numUsedElements)
    ensures pages[p].present <==> !PageDead(c, m, p)
    ensures pages[p].present ==> |pages[p].meta| == pages[p].numUsedElements && CellsOk(pages[p], m.slots, Base(c, p))
    ensures |m.slots| <= c.layout.indexSpan
  {
    hide KeysOk, Inv, Count, CellsOk;
    FreedIffDead(c, pages[p], m, Base(c, p));
  }

  lemma SkipDeadPage<T>(c: Config, m: Model<T>, p: nat, e: nat)
    requires PageDead(c, m, p) && e <= c.pageSize
    ensures EraseFrom(c, m, Base(c, p) + e) == EraseFrom(c, m, Base(c, p + 1))
  {
    assert Base(c, p + 1) == Base(c, p) + c.pageSize;
    EraseFromSkips(c, m, Base(c, p) + e, Base(c, p + 1));
  }

  lemma SkipPageEnd<T>(c: Config, m: Model<T>, p: nat, used: nat)
    requires Extent(c, m, p, used)
    ensures EraseFrom(c, m, Base(c, p) + used) == EraseFrom(c, m, Base(c, p + 1))
  {
    hide Base;
  }

  /** Clearing cell `e` of page `p` is one step of erasing in index order. */
  lemma ClearStep<T>(c: Config, m: Model<T>, p: nat, e: nat)
    requires c.Valid() && e < c.pageSize && Base(c, p) + e < |m.slots| <= c.layout.indexSpan
    ensures var i := p * c.pageSize + e;
      && i == Base(c, p) + e
      && PageOf(c, i) == p && ToIndex(c.layout, Make(c.layout, MIN_VERSION, i)) == i
      && EraseFrom(c, m, i) == EraseFrom(c, EraseSlot(c, m, i), i + 1)
      && (m.slots[i].status != Live ==> EraseSlot(c, m, i) == m)
  {
    Arith.DivModUnique(p, c.pageSize, e);
    PackRoundTrip(c.layout, MIN_VERSION, p * c.pageSize + e, 0);
  }

  lemma AllCleared<T>(c: Config, pages: seq<Page<T>>, keys: seq<Key>, items: nat, max: nat, m: Model<T>)
    requires c.Valid() && Represents(c, pages, keys, items, max, m)
    ensures EraseFrom(c, m, Base(c, |pages|)) == m
    ensures items == Count(m.slots, Live, 0, |m.slots|)
  {
    hide Count;
  }

  // ---- Statistics

  datatype Stats = Stats(numPagesTotal: nat, numInactivePages: nat, numActivePages: nat,
                         numItemsTotal: nat, numAliveItems: nat, numTombstoneItems: nat, numInactiveItems: nat)

  /** Where the slots of the first `p` pages end. */
  ghost function EndOf<T>(c: Config, m: Model<T>, p: nat): nat {
    if Base(c, p) < |m.slots| then Base(c, p) else |m.slots|
  }

  /** The statistics over the first `p` pages. */
  ghost predicate Tallied<T>(c: Config, m: Model<T>, p: nat, stats: Stats) {
    var end := EndOf(c, m, p);
    && stats.numActivePages + stats.numInactivePages == p
    && stats.numInactivePages == DeadPages(c, m, p)
    && stats.numAliveItems == Count(m.slots, Live, 0, end)
    && stats.numTombstoneItems == Count(m.slots, Queued, 0, end)
    && stats.numInactiveItems == Count(m.slots, Retired, 0, end) - stats.numInactivePages * c.pageSize
    && stats.numItemsTotal == end - stats.numInactivePages * c.pageSize
  }

  lemma TallyStart<T>(c: Config, m: Model<T>, pages: nat)
    ensures Tallied(c, m, 0, Stats(pages, 0, 0, 0, 0, 0, 0))
  {
  }

  /** One page further, all three counts grow by the page's own. */
  lemma CountsOverPage<T>(c: Config, m: Model<T>, p: nat, used: nat, s: Status)
    requires Extent(c, m, p, used)
    ensures EndOf(c, m, p) == Base(c, p) && EndOf(c, m, p + 1) == Base(c, p) + used
    ensures Count(m.slots, s, 0, EndOf(c, m, p + 1))
         == Count(m.slots, s, 0, EndOf(c, m, p)) + Count(m.slots, s, Base(c, p), Base(c, p) + used)
  {
    hide Base;
    CountSplit(m.slots, s, 0, Base(c, p), Base(c, p) + used);
  }

  lemma TallyDead<T>(c: Config, m: Model<T>, p: nat, used: nat, stats: Stats)
    requires Extent(c, m, p, used) && PageDead(c, m, p) && Tallied(c, m, p, stats)
    ensures Tallied(c, m, p + 1, stats.(numInactivePages := stats.numInactivePages + 1))
  {
    hide Base, Count;
    CountsOverPage(c, m, p, used, Live);
    CountsOverPage(c, m, p, used, Queued);
    CountsOverPage(c, m, p, used, Retired);
    CountFull(m.slots, Retired, Base(c, p), Base(c, p) + used);
    CountsPartition(m.slots, Base(c, p), Base(c, p) + used);
    assert (stats.numInactivePages + 1) * c.pageSize == stats.numInactivePages * c.pageSize + c.pageSize;
  }

  lemma TallyLive<T>(c: Config, m: Model<T>, p: nat, used: nat, stats: Stats, stats': Stats)
    requires Extent(c, m, p, used) && !PageDead(c, m, p) && Tallied(c, m, p, stats)
    requires stats'.numInactivePages == stats.numInactivePages && stats'.numActivePages == stats.numActivePages + 1
    requires stats'.numItemsTotal == stats.numItemsTotal + used
    requires stats'.numAliveItems == stats.numAliveItems + Count(m.slots, Live, Base(c, p), Base(c, p) + used)
    requires stats'.numTombstoneItems == stats.numTombstoneItems + Count(m.slots, Queued, Base(c, p), Base(c, p) + used)
    requires stats'.numInactiveItems == stats.numInactiveItems + Count(m.slots, Retired, Base(c, p), Base(c, p) + used)
    ensures Tallied(c, m, p + 1, stats')
  {
    hide Base, Count, PageDead;
    CountsOverPage(c, m, p, used, Live);
    CountsOverPage(c, m, p, used, Queued);
    CountsOverPage(c, m, p, used, Retired);
  }

  lemma TallyEnd<T>(c: Config, pages: seq<Page<T>>, keys: seq<Key>, items: nat, max: nat, m: Model<T>, stats: Stats)
    requires c.Valid() && Represents(c, pages, keys, items, max, m) && Tallied(c, m, |pages|, stats)
    ensures stats.numActivePages + stats.numInactivePages == |pages|
    ensures stats.numInactivePages == DeadPages(c, m, |pages|)
    ensures stats.numAliveItems == items && stats.numTombstoneItems == |keys|
    ensures stats.numInactiveItems == Count(m.slots, Retired, 0, |m.slots|) - stats.numInactivePages * c.pageSize
    ensures stats.numItemsTotal == stats.numAliveItems + stats.numTombstoneItems + stats.numInactiveItems
  {
    assert |m.slots| <= Base(c, |pages|);
    hide Base, Count, PageOk, DeadPages;
    CountsPartition(m.slots, 0, |m.slots|);
  }

  class SlotMap<T> {
    const config: Config
    var pages: seq<Page<T>>
    var freeIndices: seq<Key>
    var numItems: nat
    var maxValidIndex: nat
    ghost var model: Model<T>

    ghost predicate Valid()
      reads this
    {
      config.Valid() && Represents(config, pages, freeIndices, numItems, maxValidIndex, model)
    }

    constructor (config: Config)
      requires config.Valid()
      ensures Valid() && this.config == config && model == Empty()
    {
      this.config := config;
      pages, freeIndices, numItems, maxValidIndex := [], [], 0, 0;
      model := Empty();
    }

    predicate IsActivePage(page: nat)
      reads this
    {
      page < |pages| && pages[page].present
    }

    // ---- Lookup

    method Get(k: Key) returns (value: Option<T>)
      requires Valid()
      ensures value == SlotModel.Get(config, model, k)
    {
      var index := ToIndex(config.layout, k);
      Find(config, pages, freeIndices, numItems, maxValidIndex, model, index);
      hide Inv, PagesOk, KeysOk, PageDead, Count, ToIndex, ToVersion;
      if index > maxValidIndex {
        return None;
      }
      var page, cell := PageOf(config, index), CellOf(config, index);
      if !IsActivePage(page) {
        return None;
      }
      if pages[page].meta[cell].version != ToVersion(config.layout, k) {
        return None;
      }
      return Some(pages[page].values[cell]);
    }

    method HasKey(k: Key) returns (found: bool)
      requires Valid()
      ensures found <==> Hit(config, model, k)
    {
      var index := ToIndex(config.layout, k);
      Find(config, pages, freeIndices, numItems, maxValidIndex, model, index);
      hide Inv, PagesOk, KeysOk, PageDead, Count, ToIndex, ToVersion;
      if index > maxValidIndex {
        return false;
      }
      var version := ToVersion(config.layout, k);
      var page, cell := PageOf(config, index), CellOf(config, index);
      if !IsActivePage(page) {
        return false;
      }
      return pages[page].meta[cell].version == version;
    }

    method IsTombstone(index: nat) returns (tombstone: bool)
      requires Valid() && index < |model.slots|
      ensures tombstone <==> model.slots[index].status != Live
    {
      Find(config, pages, freeIndices, numItems, maxValidIndex, model, index);
      hide Inv, PagesOk, KeysOk, PageOk, PageDead, Count;
      var page, cell := PageOf(config, index), CellOf(config, index);
      if !pages[page].present {
        return true;
      }
      return pages[page].meta[cell].tombstone;
    }

    // ---- Insertion

    /** Adds a cell holding `value` at the end, on a new page if the last one is full. */
    method AppendElement(value: T) returns (index: nat)
      requires Valid() && |model.slots| < config.layout.indexSpan
      modifies this`pages
      ensures index == |model.slots|
      ensures PagesOk(config, pages, model.slots + [Slot(MIN_VERSION, Live, value)])
    {
      hide Inv, KeysOk, PageOk, Count;
      ghost var slot := Slot(MIN_VERSION, Live, value);
      var meta := Meta(MIN_VERSION, false, false);
      if pages == [] || pages[|pages| - 1].numUsedElements == config.pageSize {
        AppendedNewPage(config, pages, model.slots, slot, meta);
        pages := pages + [Page(true, [value], [meta], 0, 1)];
        index := (|pages| - 1) * config.pageSize;
      } else {
        LastPage(config, pages, model.slots);
        var page := pages[|pages| - 1];
        LastHasRoom(page);
        AppendedToLast(config, pages, model.slots, slot, meta);
        hide PagesOk;
        index := (|pages| - 1) * config.pageSize + page.numUsedElements;
        pages := pages[|pages| - 1 := page.(values := page.values + [value], meta := page.meta + [meta],
                                           numUsedElements := page.numUsedElements + 1)];
      }
    }

    lemma LastHasRoom(page: Page<T>)
      requires config.Valid() && pages != [] && page == pages[|pages| - 1]
      requires PageOk(config, page, model.slots, Base(config, |pages| - 1))
      ensures page.numUsedElements <= config.pageSize
    {
    }

    method Emplace(value: T) returns (k: Key)
      requires Valid()
      requires |freeIndices| <= config.minFree ==> |model.slots| < config.layout.indexSpan
      modifies this
      ensures Valid()
      ensures model == SlotModel.Emplace(config, old(model), value)
      ensures k == NextKey(config, old(model))
    {
      hide Represents, NextKey, SlotModel.Emplace;
      if |freeIndices| > config.minFree {
        k := EmplaceRecycled(value);
      } else {
        k := EmplaceNew(value);
      }
    }

    /** Hands out the oldest recycled key. */
    method EmplaceRecycled(value: T) returns (k: Key)
      requires Valid() && |freeIndices| > config.minFree
      modifies this
      ensures Valid()
      ensures model == SlotModel.Emplace(config, old(model), value)
      ensures k == NextKey(config, old(model))
    {
      ghost var m' := SlotModel.Emplace(config, model, value);
      hide Represents, ToIndex, ToVersion, Make, PageOf, CellOf, NextKey, SlotModel.Emplace, PagesOk;
      RecycledRepresents(config, pages, freeIndices, numItems, maxValidIndex, model, value);
      k := freeIndices[0];
      freeIndices := freeIndices[1..];
      var index := ToIndex(config.layout, k);
      var page, cell := PageOf(config, index), CellOf(config, index);
      pages := pages[page := RevivedPage(pages[page], cell, value)];
      numItems := numItems + 1;
      model := m';
    }

    /** Hands out the key of a new cell at the end. */
    method EmplaceNew(value: T) returns (k: Key)
      requires Valid() && |freeIndices| <= config.minFree && |model.slots| < config.layout.indexSpan
      modifies this
      ensures Valid()
      ensures model == SlotModel.Emplace(config, old(model), value)
      ensures k == NextKey(config, old(model))
    {
      ghost var m', before := SlotModel.Emplace(config, model, value), pages;
      hide Represents, ToIndex, ToVersion, Make, PageOf, CellOf, NextKey, SlotModel.Emplace, PagesOk;
      var index := AppendElement(value);
      AppendedRepresents(config, before, pages, freeIndices, numItems, maxValidIndex, model, value);
      k := Make(config.layout, MIN_VERSION, index);
      maxValidIndex := if maxValidIndex < index then index else maxValidIndex;
      numItems := numItems + 1;
      model := m';
    }

    // ---- Removal

    /** The second half of `eraseImpl`: slot `index`, which key `k` names, is known to be live. */
    method EraseLive(k: Key, page: nat, cell: nat) returns (result: EraseResult)
      requires Valid()
      requires ToIndex(config.layout, k) < |model.slots| && model.slots[ToIndex(config.layout, k)].status == Live
      requires page == PageOf(config, ToIndex(config.layout, k)) && cell == CellOf(config, ToIndex(config.layout, k))
      requires page < |pages| && cell < |pages[page].meta|
      requires CellOk(pages[page].meta[cell], model.slots[ToIndex(config.layout, k)].value,
                      model.slots[ToIndex(config.layout, k)])
      modifies this
      ensures Valid()
      ensures model == EraseSlot(config, old(model), ToIndex(config.layout, k))
      ensures result != NotFound
      ensures |pages| == |old(pages)|
      ensures forall p :: 0 <= p < |pages| ==> pages[p].numUsedElements == old(pages)[p].numUsedElements
      ensures result == ErasedAndPageDeactivated <==> PageDead(config, model, page)
    {
      hide Represents, PageDead, PageOf, CellOf, ToIndex, Make, ClearTagAndUpdateVersion;
      ghost var index := ToIndex(config.layout, k);
      ghost var m' := EraseSlot(config, model, index);
      var meta := pages[page].meta[cell];
      var slotVersion := meta.version;
      var deactivateSlot := slotVersion == config.layout.maxVersion;
      if deactivateSlot {
        meta := meta.(inactive := true);
      } else {
        slotVersion := slotVersion + 1;
      }
      meta := meta.(version := slotVersion, tombstone := true);
      if deactivateSlot {
        RetiredRepresents(config, pages, freeIndices, numItems, maxValidIndex, model, index, meta);
        numItems := numItems - 1;
        pages := pages[page := WornPage(config, pages[page], cell, meta)];
        result := if pages[page].present then ErasedAndIndexRecycled else ErasedAndPageDeactivated;
      } else {
        QueuedRepresents(config, pages, freeIndices, numItems, maxValidIndex, model, index, meta);
        RecycledKey(config.layout, k, slotVersion);
        numItems := numItems - 1;
        pages := pages[page := pages[page].(meta := pages[page].meta[cell := meta])];
        freeIndices := freeIndices + [ClearTagAndUpdateVersion(config.layout, k, slotVersion)];
        result := ErasedAndIndexRecycled;
      }
      model := m';
    }

    /** `versionCheck` is the template argument of `eraseImpl`: `erase` and `pop` check, `clear` does not. */
    method EraseImpl(k: Key, versionCheck: bool) returns (result: EraseResult)
      requires Valid()
      modifies this
      ensures Valid()
      ensures var index := ToIndex(config.layout, k);
        var erases := if versionCheck then Addresses(config, old(model), k)
                      else index < |old(model).slots| && old(model).slots[index].status == Live;
        && model == (if erases then EraseSlot(config, old(model), index) else old(model))
        && (result == NotFound <==> !erases)
        && (result == ErasedAndPageDeactivated <==> erases && PageDead(config, model, PageOf(config, index)))
      ensures |pages| == |old(pages)|
      ensures forall p :: 0 <= p < |pages| ==> pages[p].numUsedElements == old(pages)[p].numUsedElements
    {
      var index := ToIndex(config.layout, k);
      Find(config, pages, freeIndices, numItems, maxValidIndex, model, index);
      hide Represents, PageDead, Base, PageOf, CellOf, ToIndex, ToVersion, EraseSlot;
      if index > maxValidIndex {
        return NotFound;
      }
      var page, cell := PageOf(config, index), CellOf(config, index);
      if !IsActivePage(page) {
        return NotFound;
      }
      var meta := pages[page].meta[cell];
      if meta.tombstone {
        return NotFound;
      }
      if versionCheck {
        var version := ToVersion(config.layout, k);
        if meta.version != version || meta.version == INVALID_VERSION || version == INVALID_VERSION {
          return NotFound;
        }
      }
      result := EraseLive(k, page, cell);
    }

    method Erase(k: Key)
      requires Valid()
      modifies this
      ensures Valid() && model == EraseKey(config, old(model), k)
    {
      hide Represents, ToIndex, ToVersion;
      var _ := EraseImpl(k, true);
    }

    method Pop(k: Key) returns (value: Option<T>)
      requires Valid()
      modifies this
      ensures Valid() && model == EraseKey(config, old(model), k)
      ensures value == SlotModel.Get(config, old(model), k)
    {
      hide Inv, PagesOk, KeysOk, Count, ToIndex, ToVersion, PageDead;
      value := Get(k);
      if value.None? {
        if Addresses(config, model, k) {
          NotDeadWhileUsed(config, model, ToIndex(config.layout, k));
        }
        return;
      }
      var _ := EraseImpl(k, true);
    }

    /** The inner loop of `clear`: erases the slots of one page, stopping early if the page goes. */
    method ClearPage(pageIndex: nat)
      requires Valid() && pageIndex < |pages| && pages[pageIndex].present
      modifies this
      ensures Valid() && |pages| == |old(pages)|
      ensures EraseFrom(config, model, Base(config, pageIndex + 1))
           == EraseFrom(config, old(model), Base(config, pageIndex))
    {
      hide Represents, EraseFrom, EraseSlot, Base, PageDead, Make, PageOf, ToIndex, CellsOk;
      ghost var target := EraseFrom(config, model, Base(config, pageIndex));
      var elementIndex := 0;
      while elementIndex < pages[pageIndex].numUsedElements
        invariant Valid() && |pages| == |old(pages)| && elementIndex <= pages[pageIndex].numUsedElements
        invariant pages[pageIndex].numUsedElements == old(pages[pageIndex].numUsedElements)
        invariant EraseFrom(config, model, Base(config, pageIndex) + elementIndex) == target
      {
        PageExtent(config, pages, freeIndices, numItems, maxValidIndex, model, pageIndex);
        var index := pageIndex * config.pageSize + elementIndex;
        ClearStep(config, model, pageIndex, elementIndex);
        var result := EraseImpl(Make(config.layout, MIN_VERSION, index), false);
        elementIndex := elementIndex + 1;
        if result == ErasedAndPageDeactivated {
          SkipDeadPage(config, model, pageIndex, elementIndex);
          return;
        }
      }
      PageExtent(config, pages, freeIndices, numItems, maxValidIndex, model, pageIndex);
      SkipPageEnd(config, model, pageIndex, pages[pageIndex].numUsedElements);
    }

    /** Erases everything but keeps the memory: same as erasing every slot in index order. */
    method Clear()
      requires Valid()
      modifies this
      ensures Valid() && model == EraseFrom(config, old(model), 0)
      ensures numItems == 0
    {
      hide Represents, EraseFrom, Base, PageDead, CellsOk;
      FirstBase(config);
      var pageIndex := 0;
      while pageIndex < |pages|
        invariant Valid() && pageIndex <= |pages| == |old(pages)|
        invariant EraseFrom(config, model, Base(config, pageIndex)) == EraseFrom(config, old(model), 0)
      {
        PageExtent(config, pages, freeIndices, numItems, maxValidIndex, model, pageIndex);
        if pages[pageIndex].present {
          ClearPage(pageIndex);
        } else {
          SkipDeadPage(config, model, pageIndex, 0);
        }
        pageIndex := pageIndex + 1;
      }
      AllCleared(config, pages, freeIndices, numItems, maxValidIndex, model);
      ClearEmpties(config, old(model));
    }

    // ---- Statistics

    /** The inner loop of `debug_stats`: how many cells of a page are alive, waiting and worn out. */
    method TallyPage(page: Page<T>, ghost slots: seq<Slot<T>>, ghost base: nat)
      returns (alive: nat, tombstones: nat, inactive: nat)
      requires page.numUsedElements == |page.meta| && CellsOk(page, slots, base)
      ensures alive == Count(slots, Live, base, base + page.numUsedElements)
      ensures tombstones == Count(slots, Queued, base, base + page.numUsedElements)
      ensures inactive == Count(slots, Retired, base, base + page.numUsedElements)
    {
      alive, tombstones, inactive := 0, 0, 0;
      var elementIndex := 0;
      while elementIndex < page.numUsedElements
        invariant elementIndex <= page.numUsedElements
        invariant alive == Count(slots, Live, base, base + elementIndex)
        invariant tombstones == Count(slots, Queued, base, base + elementIndex)
        invariant inactive == Count(slots, Retired, base, base + elementIndex)
      {
        var meta := page.meta[elementIndex];
        if meta.inactive {
          inactive := inactive + 1;
        } else if meta.tombstone {
          tombstones := tombstones + 1;
        } else {
          alive := alive + 1;
        }
        elementIndex := elementIndex + 1;
      }
    }

    /**
     The numbers that walking all pages gives agree with the counters kept along the
     way: alive items with `numItems`, waiting ones with the length of the queue.
     Worn-out slots are those not on a page that has been given back.
     */
    method DebugStats() returns (stats: Stats)
      requires Valid()
      ensures stats.numPagesTotal == |pages| == stats.numActivePages + stats.numInactivePages
      ensures stats.numInactivePages == DeadPages(config, model, |pages|)
      ensures stats.numAliveItems == numItems
      ensures stats.numTombstoneItems == |freeIndices|
      ensures stats.numInactiveItems
           == Count(model.slots, Retired, 0, |model.slots|) - stats.numInactivePages * config.pageSize
      ensures stats.numItemsTotal == stats.numAliveItems + stats.numTombstoneItems + stats.numInactiveItems
    {
      hide Represents, Base, PageDead, CellsOk, Count, Tallied, DeadPages;
      TallyStart(config, model, |pages|);
      stats := Stats(|pages|, 0, 0, 0, 0, 0, 0);
      var pageIndex := 0;
      while pageIndex < |pages|
        invariant pageIndex <= |pages|
        invariant stats.numPagesTotal == |pages|
        invariant Tallied(config, model, pageIndex, stats)
      {
        PageExtent(config, pages, freeIndices, numItems, maxValidIndex, model, pageIndex);
        var page := pages[pageIndex];
        if !page.present {
          TallyDead(config, model, pageIndex, page.numUsedElements, stats);
          stats := stats.(numInactivePages := stats.numInactivePages + 1);
        } else {
          var alive, tombstones, inactive := TallyPage(page, model.slots, Base(config, pageIndex));
          ghost var before := stats;
          stats := stats.(numActivePages := stats.numActivePages + 1,
                          numItemsTotal := stats.numItemsTotal + page.numUsedElements,
                          numAliveItems := stats.numAliveItems + alive,
                          numTombstoneItems := stats.numTombstoneItems + tombstones,
                          numInactiveItems := stats.numInactiveItems + inactive);
          TallyLive(config, model, pageIndex, page.numUsedElements, before, stats);
        }
        pageIndex := pageIndex + 1;
      }
      TallyEnd(config, pages, freeIndices, numItems, maxValidIndex, model, stats);
    }
  }
}
