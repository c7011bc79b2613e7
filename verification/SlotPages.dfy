/** The paged storage of the slot map and how it represents a flat sequence of slots. */
module SlotPages {
  import opened SlotModel

  datatype Meta = Meta(version: nat, tombstone: bool, inactive: bool)

  /**
   One page. `values` and `meta` hold the cells in use; both are empty once the
   page's memory has been given back, while the two counters stay.
   */
  datatype Page<T> = Page(present: bool, values: seq<T>, meta: seq<Meta>,
                          numInactiveSlots: nat, numUsedElements: nat)

  ghost predicate CellOk<T>(meta: Meta, value: T, slot: Slot<T>) {
    && meta.version == slot.version
    && (meta.tombstone <==> slot.status != Live)
    && (meta.inactive <==> slot.status == Retired)
    && value == slot.value
  }

  ghost predicate CellsOk<T>(page: Page<T>, slots: seq<Slot<T>>, base: nat) {
    && |page.meta| == |page.values|
    && base + |page.meta| <= |slots|
    && forall e :: 0 <= e < |page.meta| ==> CellOk(page.meta[e], page.values[e], slots[base + e])
  }

  /** The page that stores slots `base ..`; it is full unless the slots end on it. */
  ghost predicate PageOk<T>(c: Config, page: Page<T>, slots: seq<Slot<T>>, base: nat)
    requires c.Valid()
  {
    && base < |slots|
    && page.numUsedElements == (if |slots| - base < c.pageSize then |slots| - base else c.pageSize)
    && page.numInactiveSlots == Count(slots, Retired, base, base + page.numUsedElements)
    && (page.present <==> page.numInactiveSlots < c.pageSize)
    && |page.meta| == (if page.present then page.numUsedElements else 0)
    && CellsOk(page, slots, base)
  }

  ghost predicate PagesOk<T>(c: Config, pages: seq<Page<T>>, slots: seq<Slot<T>>)
    requires c.Valid()
  {
    && (pages == [] <==> slots == [])
    && |slots| <= Base(c, |pages|)
    && forall p :: 0 <= p < |pages| ==> PageOk(c, pages[p], slots, Base(c, p))
  }

  /**
   Each page's used slots are live, queued or worn out; a page that has been given back
   holds no live and no queued slot; and every page but the last is full.
   */
  lemma PagePartition<T>(c: Config, pages: seq<Page<T>>, slots: seq<Slot<T>>, p: nat)
    requires c.Valid() && PagesOk(c, pages, slots) && p < |pages|
    ensures var lo := Base(c, p); var hi := lo + pages[p].numUsedElements;
      && hi <= |slots|
      && Count(slots, Live, lo, hi) + Count(slots, Queued, lo, hi) + pages[p].numInactiveSlots
         == pages[p].numUsedElements
      && (!pages[p].present ==> forall i :: lo <= i < hi ==> slots[i].status == Retired)
    ensures p < |pages| - 1 ==> pages[p].numUsedElements == c.pageSize
  {
    hide Count, CellsOk, Base;
    var lo := Base(c, p);
    assert PageOk(c, pages[p], slots, lo);
    var hi := lo + pages[p].numUsedElements;
    CountsPartition(slots, lo, hi);
    CountFull(slots, Retired, lo, hi);
    if p < |pages| - 1 {
      BasesApart(c, p, |pages| - 1);
      assert PageOk(c, pages[|pages| - 1], slots, Base(c, |pages| - 1));
    }
  }

  /** Every slot index leads to a page and to a cell in use on it. */
  lemma Address<T>(c: Config, pages: seq<Page<T>>, slots: seq<Slot<T>>, i: nat)
    requires c.Valid() && PagesOk(c, pages, slots) && i < |slots|
    ensures var p, e := PageOf(c, i), CellOf(c, i);
      && p < |pages| && PageOk(c, pages[p], slots, Base(c, p))
      && Base(c, p) + e == i && e < pages[p].numUsedElements <= c.pageSize
  {
    hide Count, CellsOk;
    AddressOf(c, i);
    var p := PageOf(c, i);
    if |pages| < p {
      BasesApart(c, |pages|, p);
    }
  }

  /** A page's memory is gone exactly when all its slots are worn out. */
  lemma FreedIffDead<T>(c: Config, page: Page<T>, m: Model<T>, base: nat)
    requires c.Valid() && PageOk(c, page, m.slots, base)
    ensures !page.present <==> DeadAt(c, m, base)
  {
    hide CellsOk;
    CountFull(m.slots, Retired, base, base + page.numUsedElements);
  }

  /** What a lookup of slot `i` meets on its page. */
  ghost predicate StoredAt<T>(c: Config, pages: seq<Page<T>>, m: Model<T>, i: nat, p: nat, e: nat)
    requires i < |m.slots|
  {
    && p < |pages| && e < c.pageSize && Base(c, p) + e == i
    && (pages[p].present <==> !PageDead(c, m, p))
    && (m.slots[i].status != Retired ==> pages[p].present)
    && (pages[p].present ==> e < |pages[p].meta| == |pages[p].values| == pages[p].numUsedElements)
    && (pages[p].present ==> CellOk(pages[p].meta[e], pages[p].values[e], m.slots[i]))
  }

  lemma StoredSlot<T>(c: Config, pages: seq<Page<T>>, m: Model<T>, i: nat)
    requires c.Valid() && PagesOk(c, pages, m.slots) && i < |m.slots|
    ensures StoredAt(c, pages, m, i, PageOf(c, i), CellOf(c, i))
    ensures PageOk(c, pages[PageOf(c, i)], m.slots, Base(c, PageOf(c, i)))
  {
    hide Count, PagesOk;
    Address(c, pages, m.slots, i);
    FreedIffDead(c, pages[PageOf(c, i)], m, Base(c, PageOf(c, i)));
  }

  /** A page is untouched by a change to a slot outside it. */
  lemma OtherSlotChanged<T>(c: Config, page: Page<T>, slots: seq<Slot<T>>, base: nat, i: nat, s: Slot<T>)
    requires c.Valid() && PageOk(c, page, slots, base) && i < |slots|
    requires i < base || base + c.pageSize <= i
    ensures PageOk(c, page, slots[i := s], base)
  {
    CountUpdate(slots, i, s, Retired, base, base + page.numUsedElements);
    hide Count;
  }

  /** Writing one cell of page `p` writes one slot. */
  lemma OneSlotChanged<T>(c: Config, pages: seq<Page<T>>, slots: seq<Slot<T>>, p: nat, e: nat, s: Slot<T>,
                          page: Page<T>)
    requires c.Valid() && PagesOk(c, pages, slots) && p < |pages| && e < c.pageSize && Base(c, p) + e < |slots|
    requires PageOk(c, page, slots[Base(c, p) + e := s], Base(c, p))
    ensures PagesOk(c, pages[p := page], slots[Base(c, p) + e := s])
  {
    hide PageOk, Base;
    forall p' | 0 <= p' < |pages| && p' != p
      ensures PageOk(c, pages[p'], slots[Base(c, p) + e := s], Base(c, p'))
    {
      if p < p' {
        BasesApart(c, p, p');
      } else {
        BasesApart(c, p', p);
      }
      OtherSlotChanged(c, pages[p'], slots, Base(c, p'), Base(c, p) + e, s);
    }
  }

  /** The page after one of its cells has been rewritten without wearing the slot out. */
  lemma CellRewritten<T>(c: Config, page: Page<T>, slots: seq<Slot<T>>, base: nat, e: nat, s: Slot<T>, meta: Meta)
    requires c.Valid() && PageOk(c, page, slots, base) && page.present && e < page.numUsedElements
    requires CellOk(meta, s.value, s)
    requires slots[base + e].status != Retired && s.status != Retired
    ensures PageOk(c, page.(values := page.values[e := s.value], meta := page.meta[e := meta]),
                   slots[base + e := s], base)
  {
    CountUpdate(slots, base + e, s, Retired, base, base + page.numUsedElements);
    hide Count;
  }

  /** A page with one slot worn out, given back if that was its last one. */
  function WornPage<T>(c: Config, page: Page<T>, e: nat, meta: Meta): Page<T>
    requires e < |page.meta|
  {
    var n := page.numInactiveSlots + 1;
    if n == c.pageSize then page.(present := false, values := [], meta := [], numInactiveSlots := n)
    else page.(meta := page.meta[e := meta], numInactiveSlots := n)
  }

  lemma CellWornOut<T>(c: Config, page: Page<T>, slots: seq<Slot<T>>, base: nat, e: nat, s: Slot<T>, meta: Meta)
    requires c.Valid() && PageOk(c, page, slots, base) && page.present && e < page.numUsedElements
    requires CellOk(meta, s.value, s) && s.value == slots[base + e].value
    requires slots[base + e].status != Retired && s.status == Retired
    ensures PageOk(c, WornPage(c, page, e, meta), slots[base + e := s], base)
  {
    CountUpdate(slots, base + e, s, Retired, base, base + page.numUsedElements);
    hide Count;
  }

  /** A full page is untouched by a new slot at the end. */
  lemma OtherSlotAppended<T>(c: Config, page: Page<T>, slots: seq<Slot<T>>, base: nat, s: Slot<T>)
    requires c.Valid() && PageOk(c, page, slots, base) && base + c.pageSize <= |slots|
    ensures PageOk(c, page, slots + [s], base)
  {
    CountAppend(slots, s, Retired, base, base + c.pageSize);
    hide Count;
  }

  /** The last page ends where the slots end. */
  lemma LastPage<T>(c: Config, pages: seq<Page<T>>, slots: seq<Slot<T>>)
    requires c.Valid() && PagesOk(c, pages, slots) && pages != []
    ensures PageOk(c, pages[|pages| - 1], slots, Base(c, |pages| - 1))
    ensures |slots| == Base(c, |pages| - 1) + pages[|pages| - 1].numUsedElements
  {
    hide Count, CellsOk;
    assert Base(c, |pages|) == Base(c, |pages| - 1) + c.pageSize;
  }

  /** The earlier pages stay as they are when a slot is added behind them. */
  lemma EarlierPagesKept<T>(c: Config, pages: seq<Page<T>>, slots: seq<Slot<T>>, s: Slot<T>, n: nat)
    requires c.Valid() && PagesOk(c, pages, slots) && n <= |pages| && Base(c, n) <= |slots|
    ensures forall p :: 0 <= p < n ==> PageOk(c, pages[p], slots + [s], Base(c, p))
  {
    hide PageOk, Base;
    forall p | 0 <= p < n
      ensures PageOk(c, pages[p], slots + [s], Base(c, p))
    {
      BasesApart(c, p, n);
      OtherSlotAppended(c, pages[p], slots, Base(c, p), s);
    }
  }

  /** The last page with one more cell. */
  lemma CellAdded<T>(c: Config, page: Page<T>, slots: seq<Slot<T>>, base: nat, s: Slot<T>, meta: Meta)
    requires c.Valid() && PageOk(c, page, slots, base) && |slots| == base + page.numUsedElements < base + c.pageSize
    requires CellOk(meta, s.value, s) && s.status == Live
    ensures PageOk(c, page.(values := page.values + [s.value], meta := page.meta + [meta],
                            numUsedElements := page.numUsedElements + 1), slots + [s], base)
  {
    CountAppend(slots, s, Retired, base, |slots|);
    assert Count(slots + [s], Retired, base, |slots| + 1) == Count(slots + [s], Retired, base, |slots|);
    hide Count;
  }

  /** Appending to a last page that has room. */
  lemma AppendedToLast<T>(c: Config, pages: seq<Page<T>>, slots: seq<Slot<T>>, s: Slot<T>, meta: Meta)
    requires c.Valid() && PagesOk(c, pages, slots) && pages != []
    requires pages[|pages| - 1].numUsedElements < c.pageSize
    requires CellOk(meta, s.value, s) && s.status == Live
    ensures var last := pages[|pages| - 1];
      PagesOk(c, pages[|pages| - 1 := last.(values := last.values + [s.value], meta := last.meta + [meta],
                                             numUsedElements := last.numUsedElements + 1)], slots + [s])
  {
    var n := |pages| - 1;
    LastPage(c, pages, slots);
    CellAdded(c, pages[n], slots, Base(c, n), s, meta);
    EarlierPagesKept(c, pages, slots, s, n);
    assert Base(c, |pages|) == Base(c, n) + c.pageSize;
    hide PageOk, Base;
  }

  /** Starting a new page when there is none or the last one is full. */
  lemma AppendedNewPage<T>(c: Config, pages: seq<Page<T>>, slots: seq<Slot<T>>, s: Slot<T>, meta: Meta)
    requires c.Valid() && PagesOk(c, pages, slots)
    requires pages == [] || pages[|pages| - 1].numUsedElements == c.pageSize
    requires CellOk(meta, s.value, s) && s.status == Live
    ensures |slots| == Base(c, |pages|)
    ensures PagesOk(c, pages + [Page(true, [s.value], [meta], 0, 1)], slots + [s])
  {
    var n := |pages|;
    if pages != [] {
      LastPage(c, pages, slots);
      assert Base(c, n) == Base(c, n - 1) + c.pageSize;
    }
    assert Base(c, n + 1) == Base(c, n) + c.pageSize;
    EarlierPagesKept(c, pages, slots, s, n);
    assert Count(slots + [s], Retired, |slots|, |slots| + 1) == 0;
    assert PageOk(c, Page(true, [s.value], [meta], 0, 1), slots + [s], |slots|);
    hide PageOk, Base;
  }
}
