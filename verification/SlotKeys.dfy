/** Keys of the slot map: a tag, a version and an index packed into one unsigned word. */
module SlotKeys {
  import opened Arith

  /**
   Widths of the three fields, as the number of values each can hold, and the
   version at which a slot is retired. A mask of the low bits of a word is a
   remainder and a shift to the right is a quotient; `KeyWords` proves that of the
   machine words themselves.
   */
  datatype Layout = Layout(indexSpan: nat, versionSpan: nat, maxVersion: nat) {
    predicate Valid() {
      0 < indexSpan && 0 < versionSpan && 1 <= maxVersion <= versionSpan
    }

    /** Every version a slot can reach is represented in the version field. */
    predicate Fits() {
      maxVersion < versionSpan
    }
  }

  type Key = nat

  const INVALID_VERSION: nat := 0
  const MIN_VERSION: nat := 1

  const KEY64 := Layout(0x1_0000_0000, 0x10_0000, 0x0f_ffff)
  const KEY32 := Layout(0x10_0000, 0x400, 0x400)

  function Make(l: Layout, version: nat, index: nat): Key
    requires l.Valid()
  {
    (version % l.versionSpan) * l.indexSpan + index % l.indexSpan
  }

  function ToIndex(l: Layout, k: Key): nat
    requires l.Valid()
  {
    k % l.indexSpan
  }

  function ToVersion(l: Layout, k: Key): nat
    requires l.Valid()
  {
    k / l.indexSpan % l.versionSpan
  }

  function GetTag(l: Layout, k: Key): nat
    requires l.Valid()
  {
    k / l.indexSpan / l.versionSpan
  }

  function SetTag(l: Layout, k: Key, tag: nat): Key
    requires l.Valid()
  {
    (tag * l.versionSpan + ToVersion(l, k)) * l.indexSpan + ToIndex(l, k)
  }

  function ClearTagAndUpdateVersion(l: Layout, k: Key, version: nat): Key
    requires l.Valid()
  {
    (version % l.versionSpan) * l.indexSpan + ToIndex(l, k)
  }

  /** The key without its tag: what `emplace` returned for it. */
  function ClearTag(l: Layout, k: Key): Key
    requires l.Valid()
  {
    ClearTagAndUpdateVersion(l, k, ToVersion(l, k))
  }

  /** Reading back the three fields of a key, and packing them again, loses nothing. */
  lemma PackRoundTrip(l: Layout, version: nat, index: nat, tag: nat)
    requires l.Valid() && index < l.indexSpan
    ensures ToIndex(l, Make(l, version, index)) == index
    ensures ToVersion(l, Make(l, version, index)) == version % l.versionSpan
    ensures GetTag(l, Make(l, version, index)) == 0
    ensures GetTag(l, SetTag(l, Make(l, version, index), tag)) == tag
    ensures ClearTag(l, SetTag(l, Make(l, version, index), tag)) == Make(l, version, index)
  {
    var v := version % l.versionSpan;
    DivModUnique(v, l.indexSpan, index);
    DivModUnique(0, l.indexSpan, index);
    DivModUnique(0, l.versionSpan, v);
    DivModUnique(tag * l.versionSpan + v, l.indexSpan, index);
    DivModUnique(tag, l.versionSpan, v);
  }

  /** The recycled key that `eraseImpl` queues is the key `make` would build for the slot. */
  lemma RecycledKey(l: Layout, k: Key, version: nat)
    requires l.Valid()
    ensures ClearTagAndUpdateVersion(l, k, version) == Make(l, version, ToIndex(l, k))
    ensures ToIndex(l, k) < l.indexSpan && ToVersion(l, k) < l.versionSpan
  {
    DivMod(k, l.indexSpan);
    DivMod(k / l.indexSpan, l.versionSpan);
    DivModUnique(0, l.indexSpan, ToIndex(l, k));
  }

  /** Tags never change what a key addresses. */
  lemma TagIsInert(l: Layout, k: Key)
    requires l.Valid()
    ensures ToIndex(l, ClearTag(l, k)) == ToIndex(l, k)
    ensures ToVersion(l, ClearTag(l, k)) == ToVersion(l, k)
    ensures ClearTag(l, ClearTag(l, k)) == ClearTag(l, k)
  {
    var v, i := ToVersion(l, k), ToIndex(l, k);
    RecycledKey(l, k, v);
    DivModUnique(0, l.versionSpan, v);
    PackRoundTrip(l, v, i, 0);
  }

  /** Within the versions a slot can have, equal keys mean equal slot and equal version. */
  lemma MakeInjective(l: Layout, v: nat, i: nat, v': nat, i': nat)
    requires l.Valid() && i < l.indexSpan && i' < l.indexSpan
    requires 1 <= v <= l.maxVersion && 1 <= v' <= l.maxVersion
    requires Make(l, v, i) == Make(l, v', i')
    ensures v == v' && i == i'
  {
    PackRoundTrip(l, v, i, 0);
    PackRoundTrip(l, v', i', 0);
    SmallVersion(l, v);
    SmallVersion(l, v');
  }

  /** The version field holds the version itself, except that the full span reads as 0. */
  lemma SmallVersion(l: Layout, v: nat)
    requires l.Valid() && v <= l.maxVersion
    ensures v % l.versionSpan == if v == l.versionSpan then 0 else v
  {
    if v == l.versionSpan {
      DivModUnique(1, l.versionSpan, 0);
    } else {
      DivModUnique(0, l.versionSpan, v);
    }
  }
}
