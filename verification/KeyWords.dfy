/**
 The keys as the machine words they are: the shifts and masks of the source, and that
 they do what the layouts of `SlotKeys` say. A 32-bit word is one below 2^32.
 */
module KeyWords {
  import opened Arith
  import opened SlotKeys
  import opened Words

  // ---- The 64-bit key

  const INDEX64: bv64 := 0x0000_0000_ffff_ffff
  const VERSION64: bv64 := 0x000f_ffff_0000_0000
  const TAG64: bv64 := 0xfff0_0000_0000_0000

  function Index64(raw: bv64): bv64 {
    raw & INDEX64
  }

  function Version64(raw: bv64): bv64 {
    (raw & VERSION64) >> 32
  }

  function Tag64(raw: bv64): bv64 {
    (raw & TAG64) >> 52
  }

  function Make64(version: bv64, index: bv64): bv64 {
    ((version << 32) & VERSION64) | (index & INDEX64)
  }

  function SetTag64(raw: bv64, tag: bv64): bv64 {
    (raw & !TAG64) | ((tag << 52) & TAG64)
  }

  function ClearTagAndUpdateVersion64(raw: bv64, version: bv64): bv64 {
    ((raw & !VERSION64) | ((version << 32) & VERSION64)) & !TAG64
  }

  lemma Version64Bits(raw: bv64)
    ensures Version64(raw) == Low20(High32(raw))
  {
    calc {
      Version64(raw);
      (raw & 0x000f_ffff_0000_0000) >> 32;
      (raw >> 32) & 0xfffff;
      Low20(High32(raw));
    }
  }

  lemma Tag64Bits(raw: bv64)
    ensures Tag64(raw) == High20(High32(raw))
  {
    calc {
      Tag64(raw);
      (raw & 0xfff0_0000_0000_0000) >> 52;
      (raw >> 32) >> 20;
      High20(High32(raw));
    }
  }

  lemma Make64High32(version: bv64, index: bv64)
    ensures High32(Make64(version, index)) == Low20(version)
  {
    calc {
      High32(Make64(version, index));
      (((version << 32) & 0x000f_ffff_0000_0000) | (index & 0x0000_0000_ffff_ffff)) >> 32;
      version & 0xfffff;
      Low20(version);
    }
  }

  lemma Make64Low32(version: bv64, index: bv64)
    ensures Low32(Make64(version, index)) == Low32(index)
  {
    calc {
      Low32(Make64(version, index));
      (((version << 32) & 0x000f_ffff_0000_0000) | (index & 0x0000_0000_ffff_ffff)) & 0xffff_ffff;
      index & 0xffff_ffff;
      Low32(index);
    }
  }

  lemma Make64Bits(version: bv64, index: bv64)
    ensures High32(Make64(version, index)) == Low20(version)
    ensures Low32(Make64(version, index)) == Low32(index)
  {
    hide High32, Low20, Low32, Make64;
    Make64High32(version, index);
    Make64Low32(version, index);
  }

  function MaskTag64(tag: bv64): bv64 {
    tag & 0xfff
  }

  lemma SetTag64Low32(raw: bv64, tag: bv64)
    ensures Low32(SetTag64(raw, tag)) == Low32(raw)
  {
    calc {
      Low32(SetTag64(raw, tag));
      ((raw & 0x000f_ffff_ffff_ffff) | ((tag << 52) & 0xfff0_0000_0000_0000)) & 0xffff_ffff;
      raw & 0xffff_ffff;
      Low32(raw);
    }
  }

  lemma SetTag64Low20OfHigh32(raw: bv64, tag: bv64)
    ensures Low20(High32(SetTag64(raw, tag))) == Low20(High32(raw))
  {
    calc {
      Low20(High32(SetTag64(raw, tag)));
      (((raw & 0x000f_ffff_ffff_ffff) | ((tag << 52) & 0xfff0_0000_0000_0000)) >> 32) & 0xfffff;
      (raw >> 32) & 0xfffff;
      Low20(High32(raw));
    }
  }

  lemma SetTag64High20OfHigh32(raw: bv64, tag: bv64)
    ensures High20(High32(SetTag64(raw, tag))) == MaskTag64(tag)
  {
    calc {
      High20(High32(SetTag64(raw, tag)));
      (((raw & 0x000f_ffff_ffff_ffff) | ((tag << 52) & 0xfff0_0000_0000_0000)) >> 32) >> 20;
      tag & 0xfff;
      MaskTag64(tag);
    }
  }

  lemma SetTag64Bits(raw: bv64, tag: bv64)
    ensures Low32(SetTag64(raw, tag)) == Low32(raw)
    ensures Low20(High32(SetTag64(raw, tag))) == Low20(High32(raw))
    ensures High20(High32(SetTag64(raw, tag))) == MaskTag64(tag)
  {
    hide High20, High32, Low20, Low32, MaskTag64, SetTag64;
    SetTag64Low32(raw, tag);
    SetTag64Low20OfHigh32(raw, tag);
    SetTag64High20OfHigh32(raw, tag);
  }

  lemma Update64High32(raw: bv64, version: bv64)
    ensures High32(ClearTagAndUpdateVersion64(raw, version)) == Low20(version)
  {
    calc {
      High32(ClearTagAndUpdateVersion64(raw, version));
      (((raw & 0xfff0_0000_ffff_ffff) | ((version << 32) & 0x000f_ffff_0000_0000)) & 0x000f_ffff_ffff_ffff) >> 32;
      version & 0xfffff;
      Low20(version);
    }
  }

  lemma Update64Low32(raw: bv64, version: bv64)
    ensures Low32(ClearTagAndUpdateVersion64(raw, version)) == Low32(raw)
  {
    calc {
      Low32(ClearTagAndUpdateVersion64(raw, version));
      (((raw & 0xfff0_0000_ffff_ffff) | ((version << 32) & 0x000f_ffff_0000_0000)) & 0x000f_ffff_ffff_ffff)
        & 0xffff_ffff;
      raw & 0xffff_ffff;
      Low32(raw);
    }
  }

  lemma Update64Bits(raw: bv64, version: bv64)
    ensures High32(ClearTagAndUpdateVersion64(raw, version)) == Low20(version)
    ensures Low32(ClearTagAndUpdateVersion64(raw, version)) == Low32(raw)
  {
    hide ClearTagAndUpdateVersion64, High32, Low20, Low32;
    Update64High32(raw, version);
    Update64Low32(raw, version);
  }

  /** Reading a 64-bit key gives the fields of the layout. */
  lemma Key64Reads(raw: bv64)
    ensures ToIndex(KEY64, Value(raw)) == Value(Index64(raw))
    ensures ToVersion(KEY64, Value(raw)) == Value(Version64(raw))
    ensures GetTag(KEY64, Value(raw)) == Value(Tag64(raw))
  {
    assert Index64(raw) == Low32(raw);
    Version64Bits(raw);
    Tag64Bits(raw);
    hide Value, High32, Low32, High20, Low20, Index64, Version64, Tag64;
    Divide32(raw);
    Divide20(High32(raw));
  }

  /** So does packing one, */
  lemma Key64Makes(version: bv64, index: bv64)
    ensures Make(KEY64, Value(version), Value(index)) == Value(Make64(version, index))
  {
    var key := Make64(version, index);
    Make64Bits(version, index);
    hide Value, High32, Low32, High20, Low20, Make64;
    Divide20(version);
    Divide32(index);
    Split32(key);
  }

  /** setting its tag, */
  lemma Key64SetsTag(raw: bv64, tag: bv64)
    ensures SetTag(KEY64, Value(raw), Value(MaskTag64(tag))) == Value(SetTag64(raw, tag))
  {
    var key := SetTag64(raw, tag);
    SetTag64Bits(raw, tag);
    hide Value, High32, Low32, High20, Low20, SetTag64, MaskTag64;
    Divide32(raw);
    Divide20(High32(raw));
    Split32(key);
    Join20(High32(key));
  }

  /** and clearing its tag for another version. */
  lemma Key64Updates(raw: bv64, version: bv64)
    ensures ClearTagAndUpdateVersion(KEY64, Value(raw), Value(version))
         == Value(ClearTagAndUpdateVersion64(raw, version))
  {
    var key := ClearTagAndUpdateVersion64(raw, version);
    Update64Bits(raw, version);
    hide Value, High32, Low32, High20, Low20, ClearTagAndUpdateVersion64;
    Divide32(raw);
    Divide20(version);
    Split32(key);
  }

  /** A word is put together again from its parts. */
  lemma Join20(w: bv64)
    ensures Value(w) == 0x10_0000 * Value(High20(w)) + Value(Low20(w))
  {
    hide Value;
    Split20(w);
  }

  // ---- The 32-bit key

  const INDEX32: bv64 := 0x000f_ffff
  const VERSION32: bv64 := 0x3ff0_0000
  const TAG32: bv64 := 0xc000_0000

  function Index32(raw: bv64): bv64 {
    raw & INDEX32
  }

  function Version32(raw: bv64): bv64 {
    (raw & VERSION32) >> 20
  }

  function Make32(version: bv64, index: bv64): bv64 {
    ((version << 20) & VERSION32) | (index & INDEX32)
  }

  function ClearTagAndUpdateVersion32(raw: bv64, version: bv64): bv64 {
    ((raw & !VERSION32) | ((version << 20) & VERSION32)) & 0x3fff_ffff
  }

  /** The tag of a 32-bit word, all that stands above version and index. */
  function Tag32(raw: bv64): bv64 {
    (raw & TAG32) >> 30
  }

  lemma Version32Bits(raw: bv64)
    ensures Version32(raw) == Low10(High20(raw))
  {
    calc {
      Version32(raw);
      (raw & 0x3ff0_0000) >> 20;
      (raw >> 20) & 0x3ff;
      Low10(High20(raw));
    }
  }

  /** The low half of a word, as a 32-bit register holds it. */
  lemma Tag32Bits(raw: bv64)
    ensures Tag32(Low32(raw)) == High10(High20(Low32(raw)))
  {
    calc {
      Tag32(Low32(raw));
      ((raw & 0xffff_ffff) & 0xc000_0000) >> 30;
      ((raw & 0xffff_ffff) >> 20) >> 10;
      High10(High20(Low32(raw)));
    }
  }

  lemma Make32High20(version: bv64, index: bv64)
    ensures High20(Make32(version, index)) == Low10(version)
  {
    calc {
      High20(Make32(version, index));
      (((version << 20) & 0x3ff0_0000) | (index & 0x000f_ffff)) >> 20;
      version & 0x3ff;
      Low10(version);
    }
  }

  lemma Make32Low20(version: bv64, index: bv64)
    ensures Low20(Make32(version, index)) == Low20(index)
  {
    calc {
      Low20(Make32(version, index));
      (((version << 20) & 0x3ff0_0000) | (index & 0x000f_ffff)) & 0xfffff;
      index & 0xfffff;
      Low20(index);
    }
  }

  lemma Make32Bits(version: bv64, index: bv64)
    ensures High20(Make32(version, index)) == Low10(version)
    ensures Low20(Make32(version, index)) == Low20(index)
  {
    hide High20, Low10, Low20, Make32;
    Make32High20(version, index);
    Make32Low20(version, index);
  }

  lemma Update32High20(raw: bv64, version: bv64)
    ensures High20(ClearTagAndUpdateVersion32(raw, version)) == Low10(version)
  {
    calc {
      High20(ClearTagAndUpdateVersion32(raw, version));
      (((raw & 0xffff_ffff_c00f_ffff) | ((version << 20) & 0x3ff0_0000)) & 0x3fff_ffff) >> 20;
      version & 0x3ff;
      Low10(version);
    }
  }

  lemma Update32Low20(raw: bv64, version: bv64)
    ensures Low20(ClearTagAndUpdateVersion32(raw, version)) == Low20(raw)
  {
    calc {
      Low20(ClearTagAndUpdateVersion32(raw, version));
      (((raw & 0xffff_ffff_c00f_ffff) | ((version << 20) & 0x3ff0_0000)) & 0x3fff_ffff) & 0xfffff;
      raw & 0xfffff;
      Low20(raw);
    }
  }

  lemma Update32Bits(raw: bv64, version: bv64)
    ensures High20(ClearTagAndUpdateVersion32(raw, version)) == Low10(version)
    ensures Low20(ClearTagAndUpdateVersion32(raw, version)) == Low20(raw)
  {
    hide ClearTagAndUpdateVersion32, High20, Low10, Low20;
    Update32High20(raw, version);
    Update32Low20(raw, version);
  }

  function SetTag32(raw: bv64, tag: bv64): bv64 {
    (raw & 0x3fff_ffff) | ((tag << 30) & TAG32)
  }

  function MaskTag32(tag: bv64): bv64 {
    tag & 3
  }

  lemma SetTag32Low20(raw: bv64, tag: bv64)
    ensures Low20(SetTag32(raw, tag)) == Low20(raw)
  {
    calc {
      Low20(SetTag32(raw, tag));
      ((raw & 0x3fff_ffff) | ((tag << 30) & 0xc000_0000)) & 0xfffff;
      raw & 0xfffff;
      Low20(raw);
    }
  }

  lemma SetTag32Low10OfHigh20(raw: bv64, tag: bv64)
    ensures Low10(High20(SetTag32(raw, tag))) == Low10(High20(raw))
  {
    calc {
      Low10(High20(SetTag32(raw, tag)));
      (((raw & 0x3fff_ffff) | ((tag << 30) & 0xc000_0000)) >> 20) & 0x3ff;
      (raw >> 20) & 0x3ff;
      Low10(High20(raw));
    }
  }

  lemma SetTag32High10OfHigh20(raw: bv64, tag: bv64)
    ensures High10(High20(SetTag32(raw, tag))) == MaskTag32(tag)
  {
    calc {
      High10(High20(SetTag32(raw, tag)));
      (((raw & 0x3fff_ffff) | ((tag << 30) & 0xc000_0000)) >> 20) >> 10;
      tag & 3;
      MaskTag32(tag);
    }
  }

  lemma SetTag32Bits(raw: bv64, tag: bv64)
    ensures Low20(SetTag32(raw, tag)) == Low20(raw)
    ensures Low10(High20(SetTag32(raw, tag))) == Low10(High20(raw))
    ensures High10(High20(SetTag32(raw, tag))) == MaskTag32(tag)
  {
    hide High10, High20, Low10, Low20, MaskTag32, SetTag32;
    SetTag32Low20(raw, tag);
    SetTag32Low10OfHigh20(raw, tag);
    SetTag32High10OfHigh20(raw, tag);
  }

  /** The same for the 32-bit key. */
  lemma Key32Reads(raw: bv64)
    ensures ToIndex(KEY32, Value(raw)) == Value(Index32(raw))
    ensures ToVersion(KEY32, Value(raw)) == Value(Version32(raw))
    ensures GetTag(KEY32, Value(Low32(raw))) == Value(Tag32(Low32(raw)))
  {
    assert Index32(raw) == Low20(raw);
    Version32Bits(raw);
    Tag32Bits(raw);
    hide Value, High20, Low20, High10, Low10, Low32, Index32, Version32, Tag32;
    Divide20(raw);
    Divide10(High20(raw));
    Divide20(Low32(raw));
    Divide10(High20(Low32(raw)));
  }

  lemma Key32Makes(version: bv64, index: bv64)
    ensures Make(KEY32, Value(version), Value(index)) == Value(Make32(version, index))
  {
    var key := Make32(version, index);
    Make32Bits(version, index);
    hide Value, High20, Low20, High10, Low10, Make32;
    Divide10(version);
    Divide20(index);
    Join20(key);
  }

  lemma Key32SetsTag(raw: bv64, tag: bv64)
    ensures SetTag(KEY32, Value(raw), Value(MaskTag32(tag))) == Value(SetTag32(raw, tag))
  {
    var key := SetTag32(raw, tag);
    SetTag32Bits(raw, tag);
    hide Value, High20, Low20, High10, Low10, SetTag32, MaskTag32;
    Divide20(raw);
    Divide10(High20(raw));
    Join20(key);
    Join10(High20(key));
  }

  lemma Key32Updates(raw: bv64, version: bv64)
    ensures ClearTagAndUpdateVersion(KEY32, Value(raw), Value(version))
         == Value(ClearTagAndUpdateVersion32(raw, version))
  {
    var key := ClearTagAndUpdateVersion32(raw, version);
    Update32Bits(raw, version);
    hide Value, High20, Low20, High10, Low10, ClearTagAndUpdateVersion32;
    Divide20(raw);
    Divide10(version);
    Join20(key);
  }

  lemma Join10(w: bv64)
    ensures Value(w) == 0x400 * Value(High10(w)) + Value(Low10(w))
  {
    hide Value;
    Split10(w);
  }
}
