/** Machine words as numbers: what shifting and masking does to a word's value. */
module Words {
  import opened Arith

  /** The number whose binary digits are the bits of `w`. */
  function Value(w: bv64): nat
    decreases w
  {
    if w == 0 then 0 else 2 * Value(w >> 1) + if w & 1 == 1 then 1 else 0
  }

  /** A word is its low bits and, behind them, the rest. */
  lemma Split1(w: bv64)
    ensures Value(w) == 2 * Value(w >> 1) + Value(w & 1) && Value(w & 1) < 2
  {
    assert w & 1 == 0 || w & 1 == 1;
    assert (w & 1) >> 1 == 0;
  }

  lemma Split2(w: bv64)
    ensures Value(w) == 0x4 * Value(w >> 2) + Value(w & 0x3) && Value(w & 0x3) < 0x4
  {
    hide Value;
    Split1(w);
    Split1(w >> 1);
    Split1(w & 0x3);
    assert (w >> 1) >> 1 == w >> 2;
    assert (w & 0x3) >> 1 == (w >> 1) & 0x1 && (w & 0x3) & 0x1 == w & 0x1;
  }

  lemma Split4(w: bv64)
    ensures Value(w) == 0x10 * Value(w >> 4) + Value(w & 0xf) && Value(w & 0xf) < 0x10
  {
    hide Value;
    Split2(w);
    Split2(w >> 2);
    Split2(w & 0xf);
    assert (w >> 2) >> 2 == w >> 4;
    assert (w & 0xf) >> 2 == (w >> 2) & 0x3 && (w & 0xf) & 0x3 == w & 0x3;
  }

  lemma Split8(w: bv64)
    ensures Value(w) == 0x100 * Value(w >> 8) + Value(w & 0xff) && Value(w & 0xff) < 0x100
  {
    hide Value;
    Split4(w);
    Split4(w >> 4);
    Split4(w & 0xff);
    assert (w >> 4) >> 4 == w >> 8;
    assert (w & 0xff) >> 4 == (w >> 4) & 0xf && (w & 0xff) & 0xf == w & 0xf;
  }

  lemma Split10(w: bv64)
    ensures Value(w) == 0x400 * Value(w >> 10) + Value(w & 0x3ff) && Value(w & 0x3ff) < 0x400
  {
    hide Value;
    Split8(w);
    Split2(w >> 8);
    Split8(w & 0x3ff);
    assert (w >> 8) >> 2 == w >> 10;
    assert (w & 0x3ff) >> 8 == (w >> 8) & 0x3 && (w & 0x3ff) & 0xff == w & 0xff;
  }

  lemma Split16(w: bv64)
    ensures Value(w) == 0x10000 * Value(w >> 16) + Value(w & 0xffff) && Value(w & 0xffff) < 0x10000
  {
    hide Value;
    Split8(w);
    Split8(w >> 8);
    Split8(w & 0xffff);
    assert (w >> 8) >> 8 == w >> 16;
    assert (w & 0xffff) >> 8 == (w >> 8) & 0xff && (w & 0xffff) & 0xff == w & 0xff;
  }

  lemma Split20(w: bv64)
    ensures Value(w) == 0x100000 * Value(w >> 20) + Value(w & 0xfffff) && Value(w & 0xfffff) < 0x100000
  {
    hide Value;
    Split16(w);
    Split4(w >> 16);
    Split16(w & 0xfffff);
    assert (w >> 16) >> 4 == w >> 20;
    assert (w & 0xfffff) >> 16 == (w >> 16) & 0xf && (w & 0xfffff) & 0xffff == w & 0xffff;
  }

  function High16(w: bv64): bv64 {
    w >> 16
  }

  function Low16(w: bv64): bv64 {
    w & 0xffff
  }

  function High32(w: bv64): bv64 {
    w >> 32
  }

  function Low32(w: bv64): bv64 {
    w & 0xffff_ffff
  }

  lemma Halves16(w: bv64)
    ensures Value(w) == 0x1_0000 * Value(High16(w)) + Value(Low16(w)) && Value(Low16(w)) < 0x1_0000
  {
    hide Value;
    Split16(w);
  }

  lemma HighHigh(w: bv64)
    ensures High16(High16(w)) == High32(w)
  {
  }

  lemma HighLow(w: bv64)
    ensures High16(Low32(w)) == Low16(High16(w))
  {
    calc {
      High16(Low32(w));
      (w & 0xffff_ffff) >> 16;
      (w >> 16) & 0xffff;
      Low16(High16(w));
    }
  }

  lemma LowLow(w: bv64)
    ensures Low16(Low32(w)) == Low16(w)
  {
  }

  lemma Split32(w: bv64)
    ensures Value(w) == 0x1_0000_0000 * Value(High32(w)) + Value(Low32(w)) && Value(Low32(w)) < 0x1_0000_0000
  {
    hide Value, High16, Low16, High32, Low32;
    Halves16(w);
    Halves16(High16(w));
    Halves16(Low32(w));
    HighHigh(w);
    HighLow(w);
    LowLow(w);
  }

  // ---- Shifts and masks as quotients and remainders

  lemma Divide32(w: bv64)
    ensures Value(High32(w)) == Value(w) / 0x1_0000_0000 && Value(Low32(w)) == Value(w) % 0x1_0000_0000
  {
    hide Value, High32, Low32;
    Split32(w);
    DivModUnique(Value(High32(w)), 0x1_0000_0000, Value(Low32(w)));
  }

  function High20(w: bv64): bv64 {
    w >> 20
  }

  function Low20(w: bv64): bv64 {
    w & 0xfffff
  }

  lemma Divide20(w: bv64)
    ensures Value(High20(w)) == Value(w) / 0x10_0000 && Value(Low20(w)) == Value(w) % 0x10_0000
  {
    hide Value;
    Split20(w);
    DivModUnique(Value(w >> 20), 0x10_0000, Value(w & 0xfffff));
  }

  function High10(w: bv64): bv64 {
    w >> 10
  }

  function Low10(w: bv64): bv64 {
    w & 0x3ff
  }

  lemma Divide10(w: bv64)
    ensures Value(High10(w)) == Value(w) / 0x400 && Value(Low10(w)) == Value(w) % 0x400
  {
    hide Value;
    Split10(w);
    DivModUnique(Value(w >> 10), 0x400, Value(w & 0x3ff));
  }
}
