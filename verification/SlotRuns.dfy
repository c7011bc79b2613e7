/**
 What the slot map guarantees over every run of `emplace`, `erase`, `pop` and
 `clear` on a fresh map: keys never repeat, lookup refines a finite map, and a
 recycled slot has rested for at least `minFree` others.
 */
module SlotRuns {
  import Arith
  import opened Common
  import opened SlotKeys
  import opened SlotModel

  datatype Op<T> = EmplaceOp(value: T) | EraseOp(key: Key) | PopOp(key: Key) | ClearOp

  /**
   A run so far: the machine, the keys `emplace` has returned in order, and the
   finite map a client believes in, which never looks at the machine's slots.
   */
  datatype Log<T> = Log(model: Model<T>, issued: seq<Key>, live: map<Key, T>)

  ghost function Step<T>(c: Config, log: Log<T>, op: Op<T>): Log<T>
    requires c.Valid() && Inv(c, log.model)
  {
    match op
    case EmplaceOp(value) =>
      var k := NextKey(c, log.model);
      Log(Emplace(c, log.model, value), log.issued + [k], log.live[k := value])
    case EraseOp(key) => Log(EraseKey(c, log.model, key), log.issued, log.live - {ClearTag(c.layout, key)})
    case PopOp(key) => Log(EraseKey(c, log.model, key), log.issued, log.live - {ClearTag(c.layout, key)})
    case ClearOp => Log(EraseFrom(c, log.model, 0), log.issued, map[])
  }

  /** A run steps as the methods of the class do, and the client's map as the caller expects. */
  lemma StepIsMethod<T>(c: Config, log: Log<T>, value: T, key: Key)
    requires c.Valid() && Inv(c, log.model)
    ensures var t := Step(c, log, EmplaceOp(value));
      && t.model == Emplace(c, log.model, value) && t.issued == log.issued + [NextKey(c, log.model)]
      && NextKey(c, log.model) in t.live && t.live[NextKey(c, log.model)] == value
      && forall k :: k != NextKey(c, log.model) ==> (k in t.live <==> k in log.live)
    ensures var t, u := Step(c, log, EraseOp(key)), Step(c, log, PopOp(key));
      && t == u && t.model == EraseKey(c, log.model, key) && t.issued == log.issued
      && ClearTag(c.layout, key) !in t.live
      && forall k :: k != ClearTag(c.layout, key) ==> (k in t.live <==> k in log.live)
    ensures var t := Step(c, log, ClearOp);
      t.model == EraseFrom(c, log.model, 0) && t.issued == log.issued && t.live == map[]
  {
    hide Inv, NextKey, Emplace, EraseKey, EraseFrom, ClearTag;
  }

  /** The first key handed out is version 1 of slot 0. */
  lemma FirstKey<T>(c: Config, value: T)
    requires c.Valid()
    ensures var k := NextKey(c, Empty<T>()); ToIndex(c.layout, k) == 0 && RealVersion(c.layout, k) == 1
  {
    MadeKey(c.layout, 1, 0);
  }

  lemma StepKeepsInv<T>(c: Config, log: Log<T>, op: Op<T>)
    requires c.Valid() && Inv(c, log.model)
    ensures Inv(c, Step(c, log, op).model)
    ensures |log.model.slots| <= |Step(c, log, op).model.slots|
  {
    hide QueueOk, SlotsOk, Count, NextSlot, NextVersion, ToIndex, ToVersion, ClearTag, EraseSlot;
    match op
    case EmplaceOp(value) => EmplaceKeepsInv(c, log.model, value);
    case EraseOp(key) =>
      if Addresses(c, log.model, key) { EraseSlotKeepsInv(c, log.model, ToIndex(c.layout, key)); }
    case PopOp(key) =>
      if Addresses(c, log.model, key) { EraseSlotKeepsInv(c, log.model, ToIndex(c.layout, key)); }
    case ClearOp =>
      EraseFromKeepsInv(c, log.model, 0);
      EraseFromEffect(c, log.model, 0);
  }

  ghost function Run<T>(c: Config, ops: seq<Op<T>>): (log: Log<T>)
    requires c.Valid()
    ensures Inv(c, log.model)
  {
    if ops == [] then Log(Empty(), [], map[])
    else
      var log := Run(c, ops[..|ops| - 1]);
      StepKeepsInv(c, log, ops[|ops| - 1]);
      Step(c, log, ops[|ops| - 1])
  }

  lemma RunStep<T>(c: Config, ops: seq<Op<T>>, op: Op<T>)
    requires c.Valid()
    ensures Run(c, ops + [op]) == Step(c, Run(c, ops), op)
  {
    assert (ops + [op])[..|ops|] == ops;
  }

  // ---- Keys never repeat

  /** The version a key was made with; a full span leaves 0 in the field. */
  ghost function RealVersion(l: Layout, k: Key): nat
    requires l.Valid()
  {
    if ToVersion(l, k) == 0 then l.versionSpan else ToVersion(l, k)
  }

  /** Slot `i` has been handed out under version `v`. */
  ghost predicate HandedOut<T>(m: Model<T>, i: nat, v: nat) {
    && i < |m.slots|
    && 1 <= v <= m.slots[i].version
    && (v == m.slots[i].version ==> m.slots[i].status != Queued)
  }

  ghost predicate IssuedOk<T>(c: Config, log: Log<T>)
    requires c.Valid()
  {
    forall j :: 0 <= j < |log.issued| ==>
      && ClearTag(c.layout, log.issued[j]) == log.issued[j]
      && HandedOut(log.model, ToIndex(c.layout, log.issued[j]), RealVersion(c.layout, log.issued[j]))
  }

  ghost predicate Distinct(s: seq<Key>) {
    forall j, j' :: 0 <= j < j' < |s| ==> s[j] != s[j']
  }

  /** A key made for version `v` of slot `i` carries exactly that pair and no tag. */
  lemma MadeKey(l: Layout, v: nat, i: nat)
    requires l.Valid() && i < l.indexSpan && 1 <= v <= l.maxVersion
    ensures ToIndex(l, Make(l, v, i)) == i
    ensures RealVersion(l, Make(l, v, i)) == v
    ensures ToVersion(l, Make(l, v, i)) == v || (v == l.versionSpan && ToVersion(l, Make(l, v, i)) == 0)
    ensures ClearTag(l, Make(l, v, i)) == Make(l, v, i)
  {
    PackRoundTrip(l, v, i, 0);
    SmallVersion(l, v);
    Arith.DivModUnique(0, l.versionSpan, v % l.versionSpan);
    RecycledKey(l, Make(l, v, i), v);
    RecycledKey(l, Make(l, v, i), v % l.versionSpan);
  }

  /** An untagged key is the one made from its own version and index. */
  lemma RemadeKey(l: Layout, k: Key)
    requires l.Valid() && ClearTag(l, k) == k
    ensures k == Make(l, RealVersion(l, k), ToIndex(l, k))
  {
    RecycledKey(l, k, ToVersion(l, k));
    if ToVersion(l, k) == 0 {
      Arith.DivModUnique(1, l.versionSpan, 0);
      Arith.DivModUnique(0, l.versionSpan, 0);
    }
  }

  /** The key `emplace` is about to return was never handed out before. */
  lemma FreshKey<T>(c: Config, m: Model<T>, value: T)
    requires c.Valid() && Inv(c, m)
    requires |Emplace(c, m, value).slots| <= c.layout.indexSpan
    ensures var k := NextKey(c, m);
      && ToIndex(c.layout, k) == NextSlot(c, m) && RealVersion(c.layout, k) == NextVersion(c, m)
      && ClearTag(c.layout, k) == k
      && !HandedOut(m, ToIndex(c.layout, k), RealVersion(c.layout, k))
      && HandedOut(Emplace(c, m, value), ToIndex(c.layout, k), RealVersion(c.layout, k))
  {
    MadeKey(c.layout, NextVersion(c, m), NextSlot(c, m));
  }

  /** What was handed out stays handed out: versions only rise. */
  lemma HandedOutForever<T>(c: Config, log: Log<T>, op: Op<T>, i: nat, v: nat)
    requires c.Valid() && Inv(c, log.model) && HandedOut(log.model, i, v)
    ensures HandedOut(Step(c, log, op).model, i, v)
  {
    if op == ClearOp {
      EraseFromEffect(c, log.model, 0);
    }
  }

  lemma StepKeepsIssued<T>(c: Config, log: Log<T>, op: Op<T>)
    requires c.Valid() && Inv(c, log.model)
    requires |Step(c, log, op).model.slots| <= c.layout.indexSpan
    requires IssuedOk(c, log) && Distinct(log.issued)
    ensures IssuedOk(c, Step(c, log, op)) && Distinct(Step(c, log, op).issued)
  {
    var log' := Step(c, log, op);
    if op.EmplaceOp? {
      FreshKey(c, log.model, op.value);
    }
    forall j | 0 <= j < |log.issued|
      ensures HandedOut(log'.model, ToIndex(c.layout, log.issued[j]), RealVersion(c.layout, log.issued[j]))
    {
      HandedOutForever(c, log, op, ToIndex(c.layout, log.issued[j]), RealVersion(c.layout, log.issued[j]));
    }
  }

  lemma {:induction false} RunIssued<T>(c: Config, ops: seq<Op<T>>)
    requires c.Valid() && |Run(c, ops).model.slots| <= c.layout.indexSpan
    ensures IssuedOk(c, Run(c, ops)) && Distinct(Run(c, ops).issued)
  {
    if ops == [] {
    } else {
      var before := ops[..|ops| - 1];
      StepKeepsInv(c, Run(c, before), ops[|ops| - 1]);
      RunIssued(c, before);
      StepKeepsIssued(c, Run(c, before), ops[|ops| - 1]);
    }
  }

  /**
   "A key is always unique": in no run does `emplace` return a key twice. Holds
   for both key layouts, as long as the slots fit the index field.
   */
  lemma KeysNeverRepeat<T>(c: Config, ops: seq<Op<T>>, j: nat, j': nat)
    requires c.Valid() && |Run(c, ops).model.slots| <= c.layout.indexSpan
    requires j < j' < |Run(c, ops).issued|
    ensures Run(c, ops).issued[j] != Run(c, ops).issued[j']
  {
    RunIssued(c, ops);
  }

  // ---- Lookup refines a finite map

  /** A live slot whose key does not carry the invalid version is in the map under that key. */
  ghost predicate SlotsInMap<T>(c: Config, m: Model<T>, live: map<Key, T>)
    requires c.Valid()
  {
    forall i :: 0 <= i < |m.slots| && m.slots[i].status == Live ==>
      var k := Make(c.layout, m.slots[i].version, i);
      ToVersion(c.layout, k) != INVALID_VERSION ==> k in live && live[k] == m.slots[i].value
  }

  /** A key of the map that does not carry the invalid version addresses a live slot. */
  ghost predicate MapInSlots<T>(c: Config, m: Model<T>, live: map<Key, T>)
    requires c.Valid()
  {
    forall k :: k in live ==>
      && ClearTag(c.layout, k) == k
      && (ToVersion(c.layout, k) != INVALID_VERSION ==> Addresses(c, m, k))
  }

  /** The client's map and the live slots are the same thing, invalid versions aside. */
  ghost predicate LiveOk<T>(c: Config, log: Log<T>)
    requires c.Valid()
  {
    SlotsInMap(c, log.model, log.live) && MapInSlots(c, log.model, log.live)
  }

  /** A value put into slot `i`, which held none, is in the map under its new key. */
  lemma PutKeepsSlotsInMap<T>(c: Config, m: Model<T>, live: map<Key, T>, i: nat, slot: Slot<T>, m': Model<T>)
    requires c.Valid() && SlotsOk(c, m.slots) && SlotsInMap(c, m, live)
    requires i <= |m.slots| && m'.slots == Put(m.slots, i, slot) && |m'.slots| <= c.layout.indexSpan
    requires 1 <= slot.version <= c.layout.maxVersion
    ensures SlotsInMap(c, m', live[Make(c.layout, slot.version, i) := slot.value])
  {
    hide Make, ToVersion;
    forall j | 0 <= j < |m.slots| && j != i
      ensures Make(c.layout, m.slots[j].version, j) != Make(c.layout, slot.version, i)
    {
      if Make(c.layout, m.slots[j].version, j) == Make(c.layout, slot.version, i) {
        MakeInjective(c.layout, m.slots[j].version, j, slot.version, i);
      }
    }
  }

  lemma PutKeepsMapInSlots<T>(c: Config, m: Model<T>, live: map<Key, T>, i: nat, slot: Slot<T>, m': Model<T>)
    requires c.Valid() && MapInSlots(c, m, live)
    requires i <= |m.slots| && m'.slots == Put(m.slots, i, slot) && |m'.slots| <= c.layout.indexSpan
    requires i < |m.slots| ==> m.slots[i].status != Live
    requires slot.status == Live && 1 <= slot.version <= c.layout.maxVersion
    ensures var k := Make(c.layout, slot.version, i);
      && MapInSlots(c, m', live[k := slot.value])
      && (ToVersion(c.layout, k) != INVALID_VERSION ==> k !in live)
  {
    hide Make, ToIndex, ToVersion, ClearTag;
    var k := Make(c.layout, slot.version, i);
    MadeKey(c.layout, slot.version, i);
    assert !Addresses(c, m, k);
    forall k' | k' in live && ToVersion(c.layout, k') != INVALID_VERSION
      ensures Addresses(c, m', k')
    {
      assert Addresses(c, m, k');
    }
    assert ToVersion(c.layout, k) != INVALID_VERSION ==> Addresses(c, m', k);
  }

  lemma EmplaceKeepsLive<T>(c: Config, log: Log<T>, value: T)
    requires c.Valid() && Inv(c, log.model) && LiveOk(c, log)
    requires |Emplace(c, log.model, value).slots| <= c.layout.indexSpan
    ensures LiveOk(c, Step(c, log, EmplaceOp(value)))
    ensures ToVersion(c.layout, NextKey(c, log.model)) != INVALID_VERSION ==> NextKey(c, log.model) !in log.live
  {
    hide Make, ToVersion, SlotsInMap, MapInSlots, QueueOk, Count, NextSlot, NextVersion;
    EmplaceKeepsInv(c, log.model, value);
    var i, slot := NextSlot(c, log.model), Slot(NextVersion(c, log.model), Live, value);
    PutKeepsSlotsInMap(c, log.model, log.live, i, slot, Emplace(c, log.model, value));
    PutKeepsMapInSlots(c, log.model, log.live, i, slot, Emplace(c, log.model, value));
  }

  /** A key addresses a live value exactly when the client's map has it; one with the invalid version never does. */
  lemma AddressesIffLive<T>(c: Config, log: Log<T>, k: Key)
    requires c.Valid() && Inv(c, log.model) && LiveOk(c, log)
    requires |log.model.slots| <= c.layout.indexSpan
    ensures Addresses(c, log.model, k)
       <==> ToVersion(c.layout, k) != INVALID_VERSION && ClearTag(c.layout, k) in log.live
    ensures Addresses(c, log.model, k) ==>
      log.live[ClearTag(c.layout, k)] == log.model.slots[ToIndex(c.layout, k)].value
  {
    TagIsInert(c.layout, k);
    RecycledKey(c.layout, k, ToVersion(c.layout, k));
  }

  /** Erasing slot `i` leaves every other live value under its key. */
  lemma EraseKeepsSlotsInMap<T>(c: Config, log: Log<T>, i: nat)
    requires c.Valid() && Inv(c, log.model) && SlotsInMap(c, log.model, log.live)
    requires i < |log.model.slots| <= c.layout.indexSpan && log.model.slots[i].status == Live
    ensures SlotsInMap(c, EraseSlot(c, log.model, i), log.live - {Make(c.layout, log.model.slots[i].version, i)})
  {
    hide Make, ToIndex, ToVersion, QueueOk;
    var m, m' := log.model, EraseSlot(c, log.model, i);
    forall j | 0 <= j < |m'.slots| && m'.slots[j].status == Live
      ensures m'.slots[j] == m.slots[j]
      ensures Make(c.layout, m.slots[j].version, j) != Make(c.layout, m.slots[i].version, i)
    {
      MadeKey(c.layout, m.slots[j].version, j);
      MadeKey(c.layout, m.slots[i].version, i);
    }
  }

  /** The keys that remain do not address the erased slot. */
  lemma EraseKeepsMapInSlots<T>(c: Config, log: Log<T>, u: Key)
    requires c.Valid() && MapInSlots(c, log.model, log.live) && u in log.live
    requires ToVersion(c.layout, u) != INVALID_VERSION
    ensures MapInSlots(c, EraseSlot(c, log.model, ToIndex(c.layout, u)), log.live - {u})
  {
    hide Make, ToIndex, ToVersion, ClearTag;
    forall k | k in log.live - {u} && ToVersion(c.layout, k) != INVALID_VERSION
      ensures ToIndex(c.layout, k) != ToIndex(c.layout, u)
    {
      assert Addresses(c, log.model, k) && Addresses(c, log.model, u);
      RemadeKey(c.layout, k);
      RemadeKey(c.layout, u);
    }
  }

  lemma EraseLiveKeepsLive<T>(c: Config, log: Log<T>, u: Key)
    requires c.Valid() && Inv(c, log.model) && LiveOk(c, log)
    requires |log.model.slots| <= c.layout.indexSpan && u in log.live
    requires ToVersion(c.layout, u) != INVALID_VERSION
    ensures LiveOk(c, Log(EraseSlot(c, log.model, ToIndex(c.layout, u)), log.issued, log.live - {u}))
  {
    hide Make, ToIndex, ToVersion, ClearTag, EraseSlot, SlotsInMap, QueueOk;
    var i := ToIndex(c.layout, u);
    assert Addresses(c, log.model, u) && u == Make(c.layout, log.model.slots[i].version, i) by {
      RemadeKey(c.layout, u);
    }
    EraseKeepsSlotsInMap(c, log, i);
    EraseKeepsMapInSlots(c, log, u);
  }

  /** Taking a key with the invalid version out of the map changes nothing that counts. */
  lemma InvalidKeyIsInert<T>(c: Config, log: Log<T>, u: Key)
    requires c.Valid() && LiveOk(c, log)
    requires u in log.live ==> ToVersion(c.layout, u) == INVALID_VERSION
    ensures LiveOk(c, Log(log.model, log.issued, log.live - {u}))
  {
    hide Make, ToIndex, ToVersion, ClearTag;
  }

  lemma EraseKeepsLive<T>(c: Config, log: Log<T>, k: Key)
    requires c.Valid() && Inv(c, log.model) && LiveOk(c, log)
    requires |log.model.slots| <= c.layout.indexSpan
    ensures LiveOk(c, Log(EraseKey(c, log.model, k), log.issued, log.live - {ClearTag(c.layout, k)}))
  {
    hide Make, ToIndex, ToVersion, ClearTag, EraseSlot, LiveOk, QueueOk;
    var u := ClearTag(c.layout, k);
    AddressesIffLive(c, log, k);
    TagIsInert(c.layout, k);
    if Addresses(c, log.model, k) {
      EraseLiveKeepsLive(c, log, u);
    } else {
      InvalidKeyIsInert(c, log, u);
    }
  }

  lemma ClearKeepsLive<T>(c: Config, log: Log<T>)
    requires c.Valid()
    ensures LiveOk(c, Log(EraseFrom(c, log.model, 0), log.issued, map[]))
  {
    EraseFromEffect(c, log.model, 0);
  }

  lemma {:induction false} RunLive<T>(c: Config, ops: seq<Op<T>>)
    requires c.Valid() && |Run(c, ops).model.slots| <= c.layout.indexSpan
    ensures LiveOk(c, Run(c, ops))
  {
    if ops == [] {
    } else {
      var before, op := ops[..|ops| - 1], ops[|ops| - 1];
      var log := Run(c, before);
      StepKeepsInv(c, log, op);
      RunLive(c, before);
      hide LiveOk;
      match op
      case EmplaceOp(value) => EmplaceKeepsLive(c, log, value);
      case EraseOp(key) => EraseKeepsLive(c, log, key);
      case PopOp(key) => EraseKeepsLive(c, log, key);
      case ClearOp => ClearKeepsLive(c, log);
    }
  }

  /**
   A live key finds the value it was returned for. An erased, popped or cleared key
   is found again exactly when it carries the last version and its page is still
   allocated. A key with the invalid version is never found.
   */
  ghost predicate LookupOk<T>(c: Config, log: Log<T>, k: Key)
    requires c.Valid()
  {
    var u := ClearTag(c.layout, k);
    if ToVersion(c.layout, k) == INVALID_VERSION then Get(c, log.model, k) == None
    else if u in log.live then Get(c, log.model, k) == Some(log.live[u])
    else Hit(c, log.model, k) <==>
         ToVersion(c.layout, k) == c.layout.maxVersion && !PageDead(c, log.model, PageOf(c, ToIndex(c.layout, k)))
  }

  lemma IssuedKeyLookup<T>(c: Config, log: Log<T>, k: Key)
    requires c.Valid() && Inv(c, log.model) && LiveOk(c, log) && |log.model.slots| <= c.layout.indexSpan
    requires HandedOut(log.model, ToIndex(c.layout, k), RealVersion(c.layout, k))
    ensures LookupOk(c, log, k)
  {
    AddressesIffLive(c, log, k);
    hide ToIndex, ToVersion, ClearTag, SlotsInMap, MapInSlots, QueueOk, Count, PageDead;
    var i := ToIndex(c.layout, k);
    if log.model.slots[i].status != Retired {
      NotDeadWhileUsed(c, log.model, i);
    }
  }

  /**
   Lookup refines the finite map: after any run, for any key `emplace` has returned,
   with or without a tag, whatever other keys the run has returned.
   */
  lemma LookupRefinesMap<T>(c: Config, ops: seq<Op<T>>, k: Key)
    requires c.Valid() && |Run(c, ops).model.slots| <= c.layout.indexSpan
    requires ClearTag(c.layout, k) in Run(c, ops).issued
    ensures LookupOk(c, Run(c, ops), k)
  {
    RunIssued(c, ops);
    RunLive(c, ops);
    TagIsInert(c.layout, k);
    hide Run, ToIndex, ToVersion, ClearTag;
    IssuedKeyLookup(c, Run(c, ops), k);
  }

  // ---- The size of the map

  /** No key handed out so far has the invalid version 0; the caller can see this from the keys. */
  ghost predicate Addressable<T>(c: Config, log: Log<T>)
    requires c.Valid()
  {
    forall j :: 0 <= j < |log.issued| ==> ToVersion(c.layout, log.issued[j]) != INVALID_VERSION
  }

  /** The map has as many keys as there are live slots, and none with the invalid version. */
  ghost predicate SizeOk<T>(c: Config, log: Log<T>)
    requires c.Valid()
  {
    && |log.live| == Count(log.model.slots, Live, 0, |log.model.slots|)
    && forall k :: k in log.live ==> ToVersion(c.layout, k) != INVALID_VERSION
  }

  lemma SizeWithout<T>(live: map<Key, T>, u: Key)
    requires u in live
    ensures |live - {u}| == |live| - 1
  {
    assert live.Keys == (live - {u}).Keys + {u};
  }

  lemma WithoutAbsent<T>(live: map<Key, T>, u: Key)
    requires u !in live
    ensures live - {u} == live
  {
  }

  lemma EmplaceKeepsSize<T>(c: Config, log: Log<T>, value: T)
    requires c.Valid() && Inv(c, log.model) && SizeOk(c, log) && NextKey(c, log.model) !in log.live
    requires ToVersion(c.layout, NextKey(c, log.model)) != INVALID_VERSION
    ensures SizeOk(c, Step(c, log, EmplaceOp(value)))
  {
    hide ToVersion, NextKey, Count, QueueOk;
    EmplaceKeepsInv(c, log.model, value);
  }

  lemma EraseKeepsSize<T>(c: Config, log: Log<T>, k: Key)
    requires c.Valid() && Inv(c, log.model) && LiveOk(c, log) && SizeOk(c, log)
    requires |log.model.slots| <= c.layout.indexSpan
    ensures SizeOk(c, Log(EraseKey(c, log.model, k), log.issued, log.live - {ClearTag(c.layout, k)}))
  {
    AddressesIffLive(c, log, k);
    TagIsInert(c.layout, k);
    hide ToIndex, ToVersion, ClearTag, LiveOk, EraseSlot, Count;
    var u := ClearTag(c.layout, k);
    if u in log.live {
      EraseSlotKeepsInv(c, log.model, ToIndex(c.layout, k));
      SizeWithout(log.live, u);
    } else {
      WithoutAbsent(log.live, u);
    }
  }

  /** As long as no invalid version has been handed out, the number of items is the size of the map. */
  lemma {:induction false} SizeRefinesMap<T>(c: Config, ops: seq<Op<T>>)
    requires c.Valid() && |Run(c, ops).model.slots| <= c.layout.indexSpan
    requires Addressable(c, Run(c, ops))
    ensures SizeOk(c, Run(c, ops))
  {
    if ops == [] {
    } else {
      var before, op := ops[..|ops| - 1], ops[|ops| - 1];
      var log := Run(c, before);
      StepKeepsInv(c, log, op);
      assert log.issued <= Run(c, ops).issued;
      SizeRefinesMap(c, before);
      RunLive(c, before);
      hide SizeOk, LiveOk;
      match op
      case EmplaceOp(value) =>
        assert Run(c, ops).issued[|log.issued|] == NextKey(c, log.model);
        EmplaceKeepsLive(c, log, value);
        EmplaceKeepsSize(c, log, value);
      case EraseOp(key) => EraseKeepsSize(c, log, key);
      case PopOp(key) => EraseKeepsSize(c, log, key);
      case ClearOp => ClearKeepsSize(c, log);
    }
  }

  lemma ClearKeepsSize<T>(c: Config, log: Log<T>)
    requires c.Valid()
    ensures SizeOk(c, Log(EraseFrom(c, log.model, 0), log.issued, map[]))
  {
    ClearEmpties(c, log.model);
  }

  /** Where every version fits its field, as in the 64-bit key, every key stays addressable. */
  lemma FittingLayoutAddressable<T>(c: Config, ops: seq<Op<T>>)
    requires c.Valid() && c.layout.Fits() && |Run(c, ops).model.slots| <= c.layout.indexSpan
    ensures Addressable(c, Run(c, ops))
  {
    RunIssued(c, ops);
  }

  /**
   The published promise for the 64-bit key: below version 0xfffff a key is found exactly
   while its value lives. At that version it is also found later, as long as its page stays.
   */
  lemma Key64FindsExactlyLive<T>(c: Config, ops: seq<Op<T>>, k: Key)
    requires c.Valid() && c.layout == KEY64 && |Run(c, ops).model.slots| <= 0x1_0000_0000
    requires ClearTag(c.layout, k) in Run(c, ops).issued
    ensures var log := Run(c, ops); var u := ClearTag(c.layout, k);
      if u in log.live then Get(c, log.model, k) == Some(log.live[u])
      else Get(c, log.model, k) == None
           <==> ToVersion(c.layout, k) < 0xf_ffff || PageDead(c, log.model, PageOf(c, ToIndex(c.layout, k)))
  {
    FittingLayoutAddressable(c, ops);
    LookupRefinesMap(c, ops, k);
    TagIsInert(c.layout, k);
    RecycledKey(c.layout, k, 1);
    hide Run, ToIndex, ToVersion, ClearTag, PageDead, Inv;
  }

  // ---- The 32-bit key

  /**
   A value stored is found under the key returned if and only if the version of the slot
   handed out is not the whole span of its field, which would read back as the invalid one.
   */
  lemma FreshKeyFoundIff<T>(c: Config, m: Model<T>, value: T)
    requires c.Valid() && Inv(c, m)
    requires |Emplace(c, m, value).slots| <= c.layout.indexSpan
    ensures var k := NextKey(c, m);
      && (Get(c, Emplace(c, m, value), k) == Some(value) <==> NextVersion(c, m) != c.layout.versionSpan)
      && (NextVersion(c, m) == c.layout.versionSpan <==> ToVersion(c.layout, k) == INVALID_VERSION)
  {
    MadeKey(c.layout, NextVersion(c, m), NextSlot(c, m));
    NotDeadWhileUsed(c, Emplace(c, m, value), NextSlot(c, m));
  }

  // ---- Wearing a slot out

  /** Versions the slots can still go up before they wear out. */
  ghost function Budget<T>(c: Config, slots: seq<Slot<T>>): int {
    if slots == [] then 0
    else Budget(c, slots[..|slots| - 1]) + c.layout.maxVersion - slots[|slots| - 1].version
  }

  lemma {:induction false} BudgetUpdate<T>(c: Config, slots: seq<Slot<T>>, i: nat, s: Slot<T>)
    requires i < |slots|
    ensures Budget(c, slots[i := s]) == Budget(c, slots) + slots[i].version - s.version
  {
    var last := |slots| - 1;
    if i < last {
      BudgetUpdate(c, slots[..last], i, s);
      assert slots[i := s][..last] == slots[..last][i := s];
    } else {
      assert slots[i := s][..last] == slots[..last];
    }
  }

  lemma {:induction false} BudgetNonNegative<T>(c: Config, slots: seq<Slot<T>>)
    requires SlotsOk(c, slots)
    ensures Budget(c, slots) >= 0
  {
    if slots == [] {
    } else {
      assert SlotsOk(c, slots[..|slots| - 1]);
      BudgetNonNegative(c, slots[..|slots| - 1]);
    }
  }

  ghost predicate Resting<T>(c: Config, m: Model<T>, n: nat) {
    Inv(c, m) && |m.slots| == n > c.minFree && forall i :: 0 <= i < n ==> m.slots[i].status == Queued
  }

  /** When nothing is live, everything is queued and `emplace` recycles. */
  lemma RestingRecycles<T>(c: Config, m: Model<T>, n: nat)
    requires c.Valid() && Resting(c, m, n)
    ensures |m.queue| == n && NextSlot(c, m) == m.queue[0] < n
  {
    CountFull(m.slots, Queued, 0, n);
  }

  /** One value stored and cleared costs its slot one version and leaves all slots resting. */
  lemma OneRound<T>(c: Config, m: Model<T>, n: nat, value: T)
    requires c.Valid() && Resting(c, m, n)
    requires NextVersion(c, m) != c.layout.maxVersion
    ensures var m' := EraseFrom(c, Emplace(c, m, value), 0);
      Resting(c, m', n) && 0 <= Budget(c, m'.slots) < Budget(c, m.slots)
  {
    hide Budget, Count;
    RestingRecycles(c, m, n);
    var m1 := Emplace(c, m, value);
    EmplaceKeepsInv(c, m, value);
    EraseFromEffect(c, m1, 0);
    EraseFromKeepsInv(c, m1, 0);
    var i, m' := NextSlot(c, m), EraseFrom(c, m1, 0);
    assert m'.slots == m.slots[i := m'.slots[i]];
    BudgetUpdate(c, m.slots, i, m'.slots[i]);
    BudgetNonNegative(c, m'.slots);
  }

  /** Storing and clearing one value at a time brings some slot to its last version. */
  lemma {:induction false} WearOut<T>(c: Config, ops: seq<Op<T>>, n: nat, value: T) returns (worn: seq<Op<T>>)
    requires c.Valid() && Resting(c, Run(c, ops).model, n)
    ensures Resting(c, Run(c, worn).model, n)
    ensures NextVersion(c, Run(c, worn).model) == c.layout.maxVersion
    decreases Budget(c, Run(c, ops).model.slots)
  {
    hide Run, NextVersion, Emplace, QueueOk, Count;
    var m := Run(c, ops).model;
    if NextVersion(c, m) == c.layout.maxVersion {
      worn := ops;
    } else {
      OneRound(c, m, n, value);
      RunStep(c, ops, EmplaceOp(value));
      RunStep(c, ops + [EmplaceOp(value)], ClearOp);
      hide Resting;
      worn := WearOut(c, ops + [EmplaceOp(value)] + [ClearOp], n, value);
    }
  }

  /** Storing `n` values from scratch fills `n` slots with version 1. */
  lemma {:induction false} Fill<T>(c: Config, n: nat, value: T) returns (ops: seq<Op<T>>)
    requires c.Valid()
    ensures var m := Run(c, ops).model;
      && |m.slots| == n && m.queue == []
      && forall i :: 0 <= i < n ==> m.slots[i] == Slot(MIN_VERSION, Live, value)
  {
    ops := [];
    if n > 0 {
      var less := Fill(c, n - 1, value);
      ops := less + [EmplaceOp(value)];
      RunStep(c, less, EmplaceOp(value));
    }
  }

  /**
   The 32-bit key's last version does not fit its field, so some run stores a value
   whose key does not find it, for every page size and recycling threshold.
   */
  lemma Key32LosesValue<T>(c: Config, value: T) returns (ops: seq<Op<T>>)
    requires c.Valid() && c.layout == KEY32 && c.minFree < KEY32.indexSpan
    ensures var log := Run(c, ops);
      && ops != [] && ops[|ops| - 1] == EmplaceOp(value)
      && |log.model.slots| <= KEY32.indexSpan
      && log.issued != []
      && Get(c, log.model, log.issued[|log.issued| - 1]) != Some(value)
  {
    hide Run, Count;
    var n := c.minFree + 1;
    var full := Fill(c, n, value);
    RunStep(c, full, ClearOp);
    FilledThenCleared(c, Run(c, full).model, n, value);
    var worn := WearOut(c, full + [ClearOp], n, value);
    var m := Run(c, worn).model;
    RestingRecycles(c, m, n);
    ops := worn + [EmplaceOp(value)];
    RunStep(c, worn, EmplaceOp(value));
    hide QueueOk, SlotsOk;
    MadeKey(c.layout, NextVersion(c, m), NextSlot(c, m));
    FreshKeyFoundIff(c, m, value);
  }

  /**
   The other way round from the promise: for every layout whose versions fit, as the 64-bit
   key's do, and every page of more than one slot, some run erases a value whose key
   `get` and `has_key` find afterwards.
   */
  lemma ErasedKeyFoundAgain<T>(c: Config, value: T) returns (ops: seq<Op<T>>, k: Key)
    requires c.Valid() && c.layout.Fits() && c.layout.maxVersion > MIN_VERSION
    requires c.minFree < c.layout.indexSpan && c.pageSize > 1
    ensures var log := Run(c, ops);
      && ops != [] && ops[|ops| - 1] == EraseOp(k)
      && |log.model.slots| <= c.layout.indexSpan
      && k in log.issued && k !in log.live
      && Hit(c, log.model, k) && Get(c, log.model, k) == Some(value)
      && ToVersion(c.layout, k) == c.layout.maxVersion
  {
    hide Run, Count;
    var n := c.minFree + 1;
    var full := Fill(c, n, value);
    RunStep(c, full, ClearOp);
    FilledThenCleared(c, Run(c, full).model, n, value);
    var worn := WearOut(c, full + [ClearOp], n, value);
    var log := Run(c, worn);
    RestingRecycles(c, log.model, n);
    k := NextKey(c, log.model);
    RunStep(c, worn, EmplaceOp(value));
    RunStep(c, worn + [EmplaceOp(value)], EraseOp(k));
    ops := worn + [EmplaceOp(value)] + [EraseOp(k)];
    MadeKey(c.layout, c.layout.maxVersion, NextSlot(c, log.model));
    hide Resting, NextKey, NextSlot, NextVersion, Emplace, EraseKey, Make, ToIndex, ToVersion, ClearTag, PageDead;
    LastErase(c, log.model, n, value);
  }

  /**
   Pages of more than one slot are needed for that: with one slot a page, the page goes with
   its slot, and no run leaves a key that is found without being live.
   */
  lemma SinglePagesForget<T>(c: Config, ops: seq<Op<T>>, k: Key)
    requires c.Valid() && c.pageSize == 1 && |Run(c, ops).model.slots| <= c.layout.indexSpan
    requires ClearTag(c.layout, k) in Run(c, ops).issued && ClearTag(c.layout, k) !in Run(c, ops).live
    ensures !Hit(c, Run(c, ops).model, k) && Get(c, Run(c, ops).model, k) == None
  {
    LookupRefinesMap(c, ops, k);
    RunIssued(c, ops);
    RunLive(c, ops);
    TagIsInert(c.layout, k);
    AddressesIffLive(c, Run(c, ops), k);
    hide Run, ToIndex, ToVersion, ClearTag, LiveOk, PageDead, QueueOk;
    WornOutAlone(c, Run(c, ops), k);
  }

  lemma WornOutAlone<T>(c: Config, log: Log<T>, k: Key)
    requires c.Valid() && c.pageSize == 1 && Inv(c, log.model) && !Addresses(c, log.model, k)
    requires HandedOut(log.model, ToIndex(c.layout, k), RealVersion(c.layout, k))
    ensures ToVersion(c.layout, k) == c.layout.maxVersion ==> PageDead(c, log.model, PageOf(c, ToIndex(c.layout, k)))
  {
    AddressOf(c, ToIndex(c.layout, k));
  }

  /** Storing a value in a slot at its last version and erasing it: its page stays, and so does its version. */
  lemma LastErase<T>(c: Config, m: Model<T>, n: nat, value: T)
    requires c.Valid() && c.layout.Fits() && c.pageSize > 1 && Resting(c, m, n) && n <= c.layout.indexSpan
    requires NextVersion(c, m) == c.layout.maxVersion && NextSlot(c, m) < n
    ensures var k, m' := NextKey(c, m), EraseKey(c, Emplace(c, m, value), NextKey(c, m));
      |m'.slots| == n && Get(c, m', k) == Some(value)
  {
    var i, k, m1 := NextSlot(c, m), NextKey(c, m), Emplace(c, m, value);
    MadeKey(c.layout, c.layout.maxVersion, i);
    hide QueueOk, Make, ToIndex, ToVersion, ClearTag, PageDead, PageOf;
    assert m1.slots[i] == Slot(c.layout.maxVersion, Live, value) && Addresses(c, m1, k);
    LonelyRetired(c, EraseSlot(c, m1, i), i);
  }

  /** A page of more than one slot on which only one is worn out has not been given back. */
  lemma LonelyRetired<T>(c: Config, m: Model<T>, i: nat)
    requires c.Valid() && c.pageSize > 1 && i < |m.slots|
    requires forall j :: 0 <= j < |m.slots| && j != i ==> m.slots[j].status != Retired
    ensures !PageDead(c, m, PageOf(c, i))
  {
    AddressOf(c, i);
    hide Base, PageOf;
    var base := Base(c, PageOf(c, i));
    var j := if i == base then base + 1 else base;
    assert j < |m.slots| ==> m.slots[j].status != Retired;
  }

  lemma FilledThenCleared<T>(c: Config, m: Model<T>, n: nat, value: T)
    requires c.Valid() && Inv(c, m) && |m.slots| == n > c.minFree && c.layout.maxVersion > MIN_VERSION
    requires forall i :: 0 <= i < n ==> m.slots[i] == Slot(MIN_VERSION, Live, value)
    ensures Resting(c, EraseFrom(c, m, 0), n)
  {
    hide QueueOk;
    EraseFromEffect(c, m, 0);
    EraseFromKeepsInv(c, m, 0);
  }

  // ---- Recycling delay

  /** Single-slot events: a run of the map is a run of these, `clear` being many erases. */
  datatype Event<T> = Store(value: T) | Free(slot: nat)

  ghost function Apply<T>(c: Config, m: Model<T>, e: Event<T>): Model<T>
    requires c.Valid() && Inv(c, m)
  {
    match e
    case Store(value) => Emplace(c, m, value)
    case Free(i) => if i < |m.slots| then EraseSlot(c, m, i) else m
  }

  lemma ApplyKeepsInv<T>(c: Config, m: Model<T>, e: Event<T>)
    requires c.Valid() && Inv(c, m)
    ensures Inv(c, Apply(c, m, e))
  {
    match e
    case Store(value) => EmplaceKeepsInv(c, m, value);
    case Free(i) => if i < |m.slots| { EraseSlotKeepsInv(c, m, i); }
  }

  ghost function ApplyAll<T>(c: Config, m: Model<T>, es: seq<Event<T>>): (m': Model<T>)
    requires c.Valid() && Inv(c, m)
    ensures Inv(c, m')
    decreases |es|
  {
    if es == [] then m
    else
      ApplyKeepsInv(c, m, es[0]);
      ApplyAll(c, Apply(c, m, es[0]), es[1..])
  }

  ghost function Elements(s: seq<nat>): set<nat> {
    set x | x in s
  }

  lemma {:induction false} DistinctElements(s: seq<nat>)
    requires forall j, j' :: 0 <= j < j' < |s| ==> s[j] != s[j']
    ensures |Elements(s)| == |s|
  {
    if s == [] {
    } else {
      var rest := s[1..];
      assert s == [s[0]] + rest;
      DistinctElements(rest);
      assert Elements(s) == {s[0]} + Elements(rest);
    }
  }

  /** The single-slot events of one operation. */
  ghost function Events<T>(c: Config, m: Model<T>, op: Op<T>): seq<Event<T>>
    requires c.Valid()
  {
    match op
    case EmplaceOp(value) => [Store(value)]
    case EraseOp(key) => if Addresses(c, m, key) then [Free(ToIndex(c.layout, key))] else []
    case PopOp(key) => if Addresses(c, m, key) then [Free(ToIndex(c.layout, key))] else []
    case ClearOp => FreeFrom(m, 0)
  }

  ghost function FreeFrom<T>(m: Model<T>, i: nat): seq<Event<T>>
    decreases |m.slots| - i
  {
    if i >= |m.slots| then [] else [Free(i)] + FreeFrom(m, i + 1)
  }

  lemma {:induction false} ClearIsEvents<T>(c: Config, m: Model<T>, m0: Model<T>, i: nat)
    requires c.Valid() && Inv(c, m) && |m0.slots| == |m.slots|
    ensures ApplyAll(c, m, FreeFrom(m0, i)) == EraseFrom(c, m, i)
    decreases |m.slots| - i
  {
    hide Inv, EraseSlot;
    if i >= |m.slots| {
    } else {
      EraseSlotKeepsInv(c, m, i);
      ClearIsEvents(c, EraseSlot(c, m, i), m0, i + 1);
      assert FreeFrom(m0, i)[1..] == FreeFrom(m0, i + 1);
    }
  }

  /** Every operation is the run of its events, so the delay covers every run of operations. */
  lemma StepIsEvents<T>(c: Config, log: Log<T>, op: Op<T>)
    requires c.Valid() && Inv(c, log.model)
    ensures ApplyAll(c, log.model, Events(c, log.model, op)) == Step(c, log, op).model
  {
    var es := Events(c, log.model, op);
    if op == ClearOp {
      ClearIsEvents(c, log.model, log.model, 0);
    } else if |es| == 1 {
      ApplyKeepsInv(c, log.model, es[0]);
      assert es[1..] == [];
    }
  }

  /** The single-slot events of a whole run. */
  ghost function RunEvents<T>(c: Config, ops: seq<Op<T>>): seq<Event<T>>
    requires c.Valid()
  {
    if ops == [] then []
    else
      var before := ops[..|ops| - 1];
      RunEvents(c, before) + Events(c, Run(c, before).model, ops[|ops| - 1])
  }

  lemma {:induction false} ApplyAllAppend<T>(c: Config, m: Model<T>, es: seq<Event<T>>, fs: seq<Event<T>>)
    requires c.Valid() && Inv(c, m)
    ensures ApplyAll(c, m, es + fs) == ApplyAll(c, ApplyAll(c, m, es), fs)
    decreases |es|
  {
    hide Inv, Apply;
    if es == [] {
      assert es + fs == fs;
    } else {
      ApplyKeepsInv(c, m, es[0]);
      ApplyAllAppend(c, Apply(c, m, es[0]), es[1..], fs);
      assert (es + fs)[1..] == es[1..] + fs;
    }
  }

  /** Every run of operations is the run of its events from the empty map. */
  lemma {:induction false} RunIsEvents<T>(c: Config, ops: seq<Op<T>>)
    requires c.Valid()
    ensures ApplyAll(c, Empty(), RunEvents(c, ops)) == Run(c, ops).model
  {
    if ops == [] {
    } else {
      var before, op := ops[..|ops| - 1], ops[|ops| - 1];
      RunIsEvents(c, before);
      hide Inv, Events, Step;
      StepIsEvents(c, Run(c, before), op);
      ApplyAllAppend(c, Empty(), RunEvents(c, before), Events(c, Run(c, before).model, op));
    }
  }

  /** The map before event `x` of a run. */
  ghost function StateAt<T>(c: Config, es: seq<Event<T>>, x: nat): (m: Model<T>)
    requires c.Valid() && x <= |es|
    ensures Inv(c, m)
  {
    ApplyAll(c, Empty(), es[..x])
  }

  lemma StateNext<T>(c: Config, es: seq<Event<T>>, x: nat)
    requires c.Valid() && x < |es|
    ensures StateAt(c, es, x + 1) == Apply(c, StateAt(c, es, x), es[x])
  {
    var m0: Model<T> := Empty();
    assert Inv(c, m0);
    hide Inv, Apply;
    ApplyAllAppend(c, m0, es[..x], [es[x]]);
    assert es[..x + 1] == es[..x] + [es[x]];
    ApplyKeepsInv(c, StateAt(c, es, x), es[x]);
    assert [es[x]][1..] == [];
  }

  /** Event `x` of a run erases slot `i` and queues it for recycling. */
  ghost predicate QueuesAt<T>(c: Config, es: seq<Event<T>>, x: nat, i: nat)
    requires c.Valid() && x < |es|
  {
    var m, m' := StateAt(c, es, x), StateAt(c, es, x + 1);
    es[x] == Free(i) && i < |m.slots| && m.slots[i].status == Live && m'.queue == m.queue + [i]
  }

  /** Event `y` of a run hands slot `i` out again. */
  ghost predicate RecyclesAt<T>(c: Config, es: seq<Event<T>>, y: nat, i: nat)
    requires c.Valid() && y < |es|
  {
    es[y].Store? && NextSlot(c, StateAt(c, es, y)) == i < |StateAt(c, es, y).slots|
  }

  /** Some event strictly between `x` and `y` erases slot `j` and queues it. */
  ghost predicate QueuedBetween<T>(c: Config, es: seq<Event<T>>, x: nat, y: nat, j: nat)
    requires c.Valid() && y <= |es|
  {
    exists z :: x < z < y && QueuesAt(c, es, z, j)
  }

  /** One event moves slot `i` forward by at most one place and lets newcomers in only behind it. */
  lemma QueueMoves<T>(c: Config, m: Model<T>, e: Event<T>, i: nat, p: nat) returns (p': nat)
    requires c.Valid() && Inv(c, m) && p < |m.queue| && m.queue[p] == i
    requires !(e.Store? && NextSlot(c, m) == i)
    ensures var q := Apply(c, m, e).queue;
      && p' < |q| && q[p'] == i
      && (q[p' + 1..] == m.queue[p + 1..]
          || (e.Free? && e.slot < |m.slots| && m.slots[e.slot].status == Live && q == m.queue + [e.slot]
              && q[p' + 1..] == m.queue[p + 1..] + [e.slot]))
  {
    var m' := Apply(c, m, e);
    p' := if |m'.queue| < |m.queue| then p - 1 else p;
  }

  /** What stands behind slot `i` in the queue was queued after it. */
  lemma {:induction false} BehindWasQueued<T>(c: Config, es: seq<Event<T>>, x: nat, y: nat, i: nat) returns (p: nat)
    requires c.Valid() && x < y <= |es| && QueuesAt(c, es, x, i)
    requires forall z :: x < z < y ==> !RecyclesAt(c, es, z, i)
    ensures var q := StateAt(c, es, y).queue;
      p < |q| && q[p] == i && forall j :: j in q[p + 1..] ==> QueuedBetween(c, es, x, y, j)
    decreases y
  {
    if y == x + 1 {
      p := |StateAt(c, es, x).queue|;
    } else {
      var m := StateAt(c, es, y - 1);
      var p1 := BehindWasQueued(c, es, x, y - 1, i);
      assert !RecyclesAt(c, es, y - 1, i);
      StateNext(c, es, y - 1);
      hide StateAt, Apply;
      p := QueueMoves(c, m, es[y - 1], i, p1);
      forall j | j in StateAt(c, es, y).queue[p + 1..]
        ensures QueuedBetween(c, es, x, y, j)
      {
        if j in m.queue[p1 + 1..] {
          assert QueuedBetween(c, es, x, y - 1, j);
        } else {
          assert QueuesAt(c, es, y - 1, j);
        }
      }
    }
  }

  /**
   In every run: between an erase that queues slot `i` and the next `emplace` that hands
   it out again, at least `minFree` other slots are erased and queued for recycling.
   */
  lemma RecyclingDelay<T>(c: Config, ops: seq<Op<T>>, x: nat, y: nat, i: nat) returns (others: set<nat>)
    requires c.Valid()
    requires var es := RunEvents(c, ops);
      && x < y < |es| && QueuesAt(c, es, x, i) && RecyclesAt(c, es, y, i)
      && forall z :: x < z < y ==> !RecyclesAt(c, es, z, i)
    ensures |others| >= c.minFree && i !in others
    ensures forall j :: j in others ==> QueuedBetween(c, RunEvents(c, ops), x, y, j)
  {
    hide RunEvents, QueuesAt, QueuedBetween;
    var es := RunEvents(c, ops);
    var p := BehindWasQueued(c, es, x, y, i);
    var q := StateAt(c, es, y).queue;
    FrontOnly(c, StateAt(c, es, y), i, p);
    DistinctElements(q[1..]);
    others := Elements(q[1..]);
  }

  /** The slot handed out stands at the front of the queue and nowhere else, with enough others behind it. */
  lemma FrontOnly<T>(c: Config, m: Model<T>, i: nat, p: nat)
    requires c.Valid() && Inv(c, m) && NextSlot(c, m) == i < |m.slots| && p < |m.queue| && m.queue[p] == i
    ensures p == 0 && |m.queue[1..]| >= c.minFree && i !in m.queue[1..]
    ensures forall j, j' :: 0 <= j < j' < |m.queue[1..]| ==> m.queue[1..][j] != m.queue[1..][j']
  {
  }
}
