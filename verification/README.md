# Verified model of the slot map, the printf engine and the runtime queues

This project models five stateful parts of the repository and proves what they keep over whole runs.

* **The paged slot map** (`lib/SlotMap/slot_map.h`). `SlotMap` is the class with its pages, recycled keys and
  counters; `SlotPages` is the paged storage; `SlotModel` is the same machine without pages (one row of slots and
  one queue). Every method of the class is proved to act as the flat machine does. `SlotRuns` proves the promises of
  the header about all runs of `emplace`, `erase`, `pop` and `clear`, and `SlotIterator` proves what a loop over the
  map visits. `SlotKeys` packs keys, and `KeyWords` proves that of the machine words (`Words`). Page size, recycling
  threshold and key layout are parameters.
* **The printf engine** (`patches/xprintf.c`, `patches/xlitob.c`, `patches/xldtob.c`), which implements section
  7.19.6.1 of ISO/IEC 9899:1999. `Rounding` rounds in the digit buffer, `FloatText` says decimal place by decimal
  place what a floating conversion should spell, `FloatReader` reads such a text back character by character, and
  `FloatLayout` proves that the record `_Genld` fills spells it and that it reads back as the argument;
  `IntegerText` is `_Litob`, and `Printf` proves that the format loop sends the text the format stands for, whatever
  the sink refuses. `FormatText` says what a format means without a cursor. `AlternateForm` and `OtherConversions`
  state what the standard asks of the conversions and when it is printed. `PrintField` is the record shared by all
  of them.
* **The Android audio queue** (`android-port/platform/android_audio.cpp`). `AudioLifecycle` is the pause word, the
  mutex and the threads as interleaved steps; `AudioStream` is the data a call handles: history, backlog and fade.
* **The deferred-free list** (`patches/patches_main.c`, `patches/patches_heap.c`) in `DeferredFree`.
* **The actor lockdown table** (`patches/patches_matrix.c`) in `Lockdown`, and **the probing shuffle**
  (`patches/patches_balancing.c`) in `Shuffle`.

`Arith`, `Common` and `Decimal` hold what several modules share, and facts about division, powers and digit strings.

## What the proofs found

In the following the code does not do what its comments, its name or the C standard promise. The model follows the
code, and a theorem says exactly when the promise holds. Smaller departures from the standard are under "Left out".

* *Erased keys with the last version are found again.* Erasing a slot of version `kMaxVersion` leaves its version as
  it was, and `get`/`has_key` do not look at the tombstone. So an erased key is found again exactly when it carries
  that version and its page is still allocated (`SlotRuns.LookupRefinesMap`), and for every page of more than one
  slot some run ends with an erased key that `get`, `has_key` and `pop` find (`SlotRuns.ErasedKeyFoundAgain`); with
  one slot a page no run does (`SlotRuns.SinglePagesForget`). Below that version, the 64-bit key is found exactly
  while its value lives (`SlotRuns.Key64FindsExactlyLive`).
* *The 32-bit key loses values.* Its `kMaxVersion` is 0x400, which a 10-bit field stores as 0. A fresh key finds its
  value if and only if the version of the slot handed out is not 0x400 (`SlotRuns.FreshKeyFoundIff`), and for every
  page size and every threshold some run stores a value that its own key does not find (`SlotRuns.Key32LosesValue`).
  Keys still never repeat, for either layout. The header's comment speaks of 16 bits for versions; the code has 20
  and 10.
* *`%f` prints 0 where 1 is due.* If the first digit stands just behind the last printed place and is 5 or more,
  `%f` prints zero: 0.6 with `%.0f` gives 0. In all other cases it is rounded half up (`FloatText.FixedRoundsIff`).
* *`%#g` drops zeros in the exponent style*: it shows as many significant digits as the precision asks for if and
  only if the style is fixed, the precision is 1, or the last of those digits is there and is not stripped in
  rounding (`FloatText.AlternateGKeepsZerosIff`). `%#g` of 1e10 gives "1.e+10" (`FloatText.AlternateGDropsZeros`).
* *`%lu`, `%lx`, `%lo` and `%p` extend the sign* of a 32-bit argument: right if and only if it is below 2^31
  (`Printf.UnsignedPrintsMeaningIff`, `Printf.PointerPrintsAddressIff`).
* *`#` puts its prefix in front of whatever digits there are.* Apart from the sign extension above, `%#x` prints
  what the standard asks for if and only if the argument is not 0 (`AlternateForm.AlternateHexIff`): 0 gives "0x0"
  where "0" is due. `%#o` prints one zero too many if and only if the precision exceeds the digits of a positive
  value, or the value is 0, the precision is not 0 and '0' does not fill a width of two or more
  (`AlternateForm.AlternateOctalIff`): `%#.5o` of 8 gives "000010" where "00010" is due, and `%#o` of 0 gives "00"
  where "0" is. `%#u` prints a "0" in front; the standard leaves it undefined. Without `#` an unsigned conversion
  prints what the standard asks for if and only if its argument is not a "%l" one of 2^31 or more
  (`AlternateForm.WithoutHashIff`), and signed conversions always do (`AlternateForm.SignedIsStandard`).
* *Widths and precisions are capped.* A number in the format is read as it stands if and only if it is below 9990
  (`Printf.NumberIsValueIff`).
* *A deferred free with delay `d` happens at the `d`-th tick* if and only if 1 <= d <= 256, as the countdown is one
  byte (`DeferredFree.DelayIsLifeIff`).
* *A pause and resume is missed by the servicer* if and only if the number of flips since the last reset is a
  multiple of 2^63 (`AudioLifecycle.FlipsAreNotLost`).

## Model

| member | source | states |
|---|---|---|
| SlotKeys.PackRoundTrip | lib/SlotMap/slot_map.h:176-207 | Packing a version and an index and reading them back loses nothing; a tag is stored and cleared without touching them |
| SlotKeys.RecycledKey | lib/SlotMap/slot_map.h:187-192 | The key queued for reuse is the key `make` builds for that slot and version; any tag is gone |
| SlotKeys.TagIsInert | lib/SlotMap/slot_map.h:187-207 | A tagged key addresses the same slot and version as the untagged one |
| SlotKeys.MakeInjective | lib/SlotMap/slot_map.h:176-183 | Among the versions a slot can have, equal keys have equal slot and equal version, also where the last version overflows its field |
| SlotKeys.SmallVersion | lib/SlotMap/slot_map.h:244-256 | The version field holds the version, except that a version equal to the field's span reads as 0 |
| KeyWords.Key64Reads | lib/SlotMap/slot_map.h:193-200 | For every 64-bit word the masks and shifts of the code give the index, version and tag of the layout |
| KeyWords.Key64Makes | lib/SlotMap/slot_map.h:176-183 | So do those of `make` |
| KeyWords.Key64SetsTag | lib/SlotMap/slot_map.h:201-206 | And those of `set_tag`, for a tag of any size |
| KeyWords.Key64Updates | lib/SlotMap/slot_map.h:187-192 | And those of `clearTagAndUpdateVersion` |
| KeyWords.Key32Reads | lib/SlotMap/slot_map.h:278-285 | The same for the 32-bit key: reading, |
| KeyWords.Key32Makes | lib/SlotMap/slot_map.h:261-268 | packing, |
| KeyWords.Key32SetsTag | lib/SlotMap/slot_map.h:286-291 | setting the tag |
| KeyWords.Key32Updates | lib/SlotMap/slot_map.h:272-277 | and recycling |
| SlotModel.CountsPartition | lib/SlotMap/slot_map.h:1117-1133 | In any range each slot is live, queued or worn out, and the three counts add up |
| SlotModel.EmplaceKeepsInv | lib/SlotMap/slot_map.h:961-999 | `emplace` hands out a slot that is new or queued, keeps every queued slot in the queue exactly once, and one more value is live |
| SlotModel.EraseSlotKeepsInv | lib/SlotMap/slot_map.h:818-858 | Erasing a slot keeps queue and versions exact and lowers the number of live values by one if it was live |
| SlotModel.EraseFromEffect | lib/SlotMap/slot_map.h:920-942 | Clearing from an index on erases each slot from there once and touches none before |
| SlotModel.ClearEmpties | lib/SlotMap/slot_map.h:917-942 | Clearing leaves no live slot |
| SlotModel.NotDeadWhileUsed | lib/SlotMap/slot_map.h:843-852 | No live or queued slot lies on a page that has been given back |
| SlotModel.NextLiveIsNextItem | lib/SlotMap/slot_map.h:1177-1184 | Stepping to the next live slot leaves no item out |
| SlotModel.ItemsAreLive | lib/SlotMap/slot_map.h:1244-1255 | Every item yielded is a live slot's key and value |
| SlotModel.ItemsAscend | lib/SlotMap/slot_map.h:1286-1293 | Items come in strictly increasing index order, so none comes twice |
| SlotModel.ItemsComplete | lib/SlotMap/slot_map.h:1198-1209 | Every live slot is visited, and there are as many items as live slots |
| SlotModel.ItemLooksUp | lib/SlotMap/slot_map.h:1244-1255 | A yielded key looks up the yielded value if and only if its version is not 0 |
| SlotPages.PagePartition | lib/SlotMap/slot_map.h:568-590 | Per page: live, queued and inactive slots add up to the used ones, a page given back has only inactive ones, every page but the last is full |
| SlotPages.FreedIffDead | lib/SlotMap/slot_map.h:843-852 | A page's memory is gone exactly when it is full and all of it is worn out |
| SlotPages.StoredSlot | lib/SlotMap/slot_map.h:604-639 | The address computed from an index leads to the cell that stores that slot |
| SlotPages.CellWornOut | lib/SlotMap/slot_map.h:843-852 | Wearing one slot out, and giving the page back with its last one, keeps the page's counters true |
| SlotPages.AppendedToLast | lib/SlotMap/slot_map.h:576-590 | Appending to a page with room adds exactly one slot at the end |
| SlotPages.AppendedNewPage | lib/SlotMap/slot_map.h:568-590 | So does starting a new page when there is none or the last is full |
| SlotMap.SlotMap.constructor | lib/SlotMap/slot_map.h:862-866 | A new map represents the empty machine |
| SlotMap.RecycledRepresents | lib/SlotMap/slot_map.h:964-984 | Reviving the cell of the oldest recycled key represents the machine's `emplace`, and that key is the one it returns |
| SlotMap.AppendedRepresents | lib/SlotMap/slot_map.h:986-998 | So does a new cell at the end, with the counters and the key |
| SlotMap.QueuedRepresents | lib/SlotMap/slot_map.h:824-857 | Erasing a slot with versions left, and queueing its next key, represents the machine's erase |
| SlotMap.RetiredRepresents | lib/SlotMap/slot_map.h:818-852 | So does retiring a slot at its last version; the page is given back exactly when it was the last one on it |
| SlotMap.SlotMap.Get | lib/SlotMap/slot_map.h:536-566 | The stored value exactly when the index is in range, the page is allocated and the versions are equal |
| SlotMap.SlotMap.HasKey | lib/SlotMap/slot_map.h:872-887 | True in exactly those cases |
| SlotMap.SlotMap.IsTombstone | lib/SlotMap/slot_map.h:653-664 | True exactly for slots that hold no value, also on pages given back |
| SlotMap.SlotMap.AppendElement | lib/SlotMap/slot_map.h:568-590 | Returns the first unused index, and the pages then store one more live slot there with version 1 |
| SlotMap.SlotMap.Emplace | lib/SlotMap/slot_map.h:961-999 | Acts as the flat machine and returns its key; pages, queue and counters stay true |
| SlotMap.SlotMap.EmplaceRecycled | lib/SlotMap/slot_map.h:964-984 | The half that reuses the oldest recycled key |
| SlotMap.SlotMap.EmplaceNew | lib/SlotMap/slot_map.h:986-998 | The half that adds a cell |
| SlotMap.SlotMap.EraseLive | lib/SlotMap/slot_map.h:816-858 | The second half of `eraseImpl` erases exactly the slot, and reports a page given back exactly when it is |
| SlotMap.SlotMap.EraseImpl | lib/SlotMap/slot_map.h:787-859 | With and without version check: what is erased, when nothing is, and the result code |
| SlotMap.SlotMap.Erase | lib/SlotMap/slot_map.h:1004 | Erases the value the key addresses and nothing else |
| SlotMap.SlotMap.Pop | lib/SlotMap/slot_map.h:1009-1020 | Returns what a lookup finds, and erases the value the key addresses |
| SlotMap.SlotMap.ClearPage | lib/SlotMap/slot_map.h:929-939 | The inner loop erases the slots of one page, also when the page goes in the middle |
| SlotMap.SlotMap.Clear | lib/SlotMap/slot_map.h:920-942 | The same as erasing every slot in index order; no item is left |
| SlotMap.SlotMap.TallyPage | lib/SlotMap/slot_map.h:1114-1133 | Counts a page's live, queued and inactive cells |
| SlotMap.SlotMap.DebugStats | lib/SlotMap/slot_map.h:1099-1136 | Walking all pages gives the numbers kept along the way: alive items are `numItems`, tombstones the length of the queue |
| SlotIterator.Iterator.constructor | lib/SlotMap/slot_map.h:1198-1208 | `begin()` stands before all items, also for an empty map |
| SlotIterator.Iterator.Current | lib/SlotMap/slot_map.h:1244-1255 | Dereferencing yields the next item's key and value |
| SlotIterator.Iterator.Advance | lib/SlotMap/slot_map.h:1286-1293 | `operator++` moves past exactly one item |
| SlotIterator.SkipTombstones | lib/SlotMap/slot_map.h:1324-1327 | The skipping loop stops at the first live slot or at the end |
| SlotIterator.ForEach | lib/SlotMap/slot_map.h:1320-1333 | A whole loop ends and yields all items in order, `numItems` of them |
| SlotRuns.FreshKey | lib/SlotMap/slot_map.h:961-999 | The version of the slot about to be handed out was never handed out before |
| SlotRuns.FirstKey | lib/SlotMap/slot_map.h:968-998 | The first key is version 1 of slot 0 |
| SlotRuns.StepIsMethod | lib/SlotMap/slot_map.h:920-1020 | A step of a run does what the method of the class does, and changes the caller's map in the one key it is about |
| SlotRuns.HandedOutForever | lib/SlotMap/slot_map.h:818-833 | What was handed out stays so under every operation: versions only rise |
| SlotRuns.KeysNeverRepeat | lib/SlotMap/slot_map.h:319-320 | "A key is always unique": in no run does `emplace` return a key twice, for either layout |
| SlotRuns.AddressesIffLive | lib/SlotMap/slot_map.h:787-816 | `erase` and `pop` act on a key exactly when the caller's map of live values has it |
| SlotRuns.LookupRefinesMap | lib/SlotMap/slot_map.h:536-566 | After any run, for every issued key, whatever other keys were issued: it finds its value while that lives; otherwise it is found exactly when it has the last version and its page is allocated; with version 0 it is never found |
| SlotRuns.SizeRefinesMap | lib/SlotMap/slot_map.h:961-999 | As long as no key of version 0 was issued, the number of items is the size of the caller's map |
| SlotRuns.ErasedKeyFoundAgain | lib/SlotMap/slot_map.h:818-833 | For every layout whose versions fit and every page of more than one slot, some run ends with an erased key that is found; the value is the one its slot last held |
| SlotRuns.SinglePagesForget | lib/SlotMap/slot_map.h:843-852 | With one slot a page, in no run is a key found that is not live |
| SlotRuns.FittingLayoutAddressable | lib/SlotMap/slot_map.h:162-166 | Where the last version fits its field no key has the invalid version |
| SlotRuns.Key64FindsExactlyLive | lib/SlotMap/slot_map.h:319-320 | "Will only refer to the value that was inserted": a 64-bit key below version 0xfffff finds exactly the value it was returned for, and only while it lives; at that version it is found later if and only if its page is allocated |
| SlotRuns.FreshKeyFoundIff | lib/SlotMap/slot_map.h:536-557 | The key just returned finds the value just stored if and only if the version of the slot handed out is not the span of its field, as only that reads back as 0 |
| SlotRuns.Key32LosesValue | lib/SlotMap/slot_map.h:249-256 | With the 32-bit key some run ends by storing a value that its key does not find |
| SlotRuns.RecyclingDelay | lib/SlotMap/slot_map.h:409-422 | In every run, between the event that erases a slot and the next one that hands it out again, events erase and queue at least `kMinFreeIndices` other slots |
| SlotRuns.StepIsEvents | lib/SlotMap/slot_map.h:920-942 | Every operation, `clear` included, is a series of single-slot events |
| SlotRuns.RunIsEvents | lib/SlotMap/slot_map.h:961-967 | So is every run from the empty map |
| Rounding.NearestUnique | patches/xldtob.c:167-182 | There is only one number rounded half up |
| Rounding.RoundIsRounding | patches/xldtob.c:167-182 | For every buffer and cut the digits left denote the input rounded half up to that many significant digits, with no zero at either end; all nines carry into the exponent |
| Rounding.SkipZeros | patches/xldtob.c:155-159 | Finds the first cell that is not '0', also behind an empty run of digits, and adjusts count and exponent |
| Rounding.RoundInPlace | patches/xldtob.c:167-182 | The strip-and-carry loop ends and leaves in the buffer the rounded digits, moving into the guard cell exactly when all kept digits are nines |
| FloatText.FixedDenotes | patches/xldtob.c:229-275 | The fixed style has exactly the wanted fraction digits, no superfluous leading zero, and is the input cut off there |
| FloatText.ExpDenotes | patches/xldtob.c:289-303 | The mantissa of the exponent style is the input's leading digits |
| FloatText.ExponentParsesBack | patches/xldtob.c:308-324 | The exponent's digits, two or more, read back as the exponent |
| FloatText.ExponentReads | patches/xldtob.c:305-324 | Read character by character, letter, sign and digits give the exponent, negative ones too |
| FloatText.BodyStyle | patches/xldtob.c:213-325 | The text read back has the style that its code and exponent ask for: digits before and behind the point, the point, letter, sign and length of the exponent |
| FloatText.PrintedZero | patches/xldtob.c:161-167 | With no significant digit left `%f` prints zero, and when that is right |
| FloatText.FixedRoundsIff | patches/xldtob.c:161-182 | `%f` prints its input rounded half up if and only if the first digit is not a 5 or more just behind the last place |
| FloatText.SixTenthsPrintsZero | patches/xldtob.c:161-182 | 0.6 with no fraction digits prints 0 |
| FloatText.GShowsNoTrailingZero | patches/xldtob.c:219-226 | Without '#', a fraction that `%g` shows does not end in 0 |
| FloatText.AlternateGKeepsZerosIff | patches/xldtob.c:161-287 | The text `%#g` prints shows exactly the precision's significant digits if and only if the style is fixed, the precision is 1, or the last of those digits exists and is not stripped |
| FloatText.AlternateGDropsZeros | patches/xldtob.c:277-287 | 1e10 with `%#g` prints one significant digit where six are due |
| FloatText.BodyRounds | patches/xldtob.c:161-325 | For 'e' and 'g' the number read back from the text, with the sign of its exponent, is the input rounded half up to the significant digits wanted |
| FloatLayout.LayoutBelowOne | patches/xldtob.c:229-248 | The pieces written for numbers below one spell the fixed style |
| FloatLayout.LayoutWhole | patches/xldtob.c:249-258 | So do those for whole numbers with more places than digits |
| FloatLayout.LayoutMixed | patches/xldtob.c:259-275 | And those for digits on both sides of the point |
| FloatLayout.LayoutFixed | patches/xldtob.c:217-275 | The 'f' branch spells the fixed style for every exponent |
| FloatLayout.LayoutExponent | patches/xldtob.c:305-324 | Writes the letter, sign and two to four digits that `ExponentReads` reads back |
| FloatLayout.LayoutExp | patches/xldtob.c:289-324 | The 'e' branch spells the exponent style |
| FloatLayout.LayoutStyle | patches/xldtob.c:213-325 | The style chosen and the precision adjusted for 'g' give the text of the conversion |
| FloatLayout.Genld | patches/xldtob.c:210-334 | `_Genld` spells the text and asks for the zeros that fill the width |
| FloatLayout.LdtobRound | patches/xldtob.c:161-186 | From a buffer without leading zeros: the digits shown are the rounded ones |
| FloatLayout.Ldtob | patches/xldtob.c:73-187 | Default precisions, NaN, infinity, zero and finite numbers, from the finished digit buffer on |
| FloatLayout.LdtobTiny | patches/xldtob.c:130-167 | Where no digit is generated, the conversion shows the digit 0, whatever the buffer held before |
| FloatLayout.TinyPrintsZero | patches/xldtob.c:130-182 | So `%f` of such a number prints the same as for zero, which is the number correctly rounded |
| FloatLayout.TrimmedKeepsValue | patches/xldtob.c:157-159 | Skipping leading zeros leaves the number what it was |
| FloatLayout.PercentE | patches/xldtob.c:155-324 | `%e` as a whole: the text has style 'e' of the standard with 6 places by default, and the number read back is the input rounded half up |
| FloatLayout.PercentG | patches/xldtob.c:84-88 | `%g` as a whole: with P for the precision and X for the exponent `%e` prints, style 'f' if P > X >= -4 and style 'e' if not, without trailing zeros unless '#' asks for them |
| FloatLayout.PercentGRounds | patches/xldtob.c:155-325 | The number read back from `%g` is the input rounded half up to P digits |
| FloatLayout.NotNumbers | patches/xldtob.c:90-93 | NaN and infinity are printed as words that no reader takes for a number |
| FloatLayout.ZeroReads | patches/xldtob.c:94-96 | Zero has the style of its conversion and reads back as zero |
| FloatLayout.PercentF | patches/xldtob.c:155-275 | `%f` as a whole: the text has style 'f' of the standard with 6 places by default, and the number read back is the input rounded half up if and only if the failing condition does not hold |
| IntegerText.DigitsParseBack | patches/xlitob.c:65-75 | The digits of a number read back as it, with no leading zero |
| IntegerText.DigitsAreInBase | patches/xlitob.c:55-57 | 'o' prints octal digits, 'x' and 'X' hexadecimal ones in small and capital letters, the others decimal ones |
| IntegerText.DigitsFit | patches/xlitob.c:48-75 | A 64-bit number needs at most 22 of the 24 cells in any base |
| IntegerText.WriteDigits | patches/xlitob.c:55-75 | The loop writes exactly the number's digits backwards; its guard never cuts one off |
| IntegerText.Litob | patches/xlitob.c:48-93 | The digits stand behind the prefix, and the zeros of precision or width are asked for |
| IntegerText.IntegerParsesBack | patches/xlitob.c:65-92 | With any zeros in front the text reads back as the magnitude; it is empty exactly for 0 with precision 0 |
| Printf.Put | patches/xprintf.c:38-45 | The count grows by what the sink accepts, and a refusal leaves it |
| Printf.Pad | patches/xprintf.c:27-37 | Chunks of at most 32 add up to the whole run, or to a part before a refusal |
| Printf.PaddedLength | patches/xprintf.c:130-155 | A conversion is as long as its width or its text, whichever is longer; the text stands at the right, or at the left under '-', and the rest is spaces |
| Printf.PutInteger | patches/xprintf.c:186-226 | Prefix, zeros and digits spell the integer conversion |
| Printf.PutFloat | patches/xprintf.c:232-242 | Sign, zeros and body spell the floating conversion |
| Printf.PutString | patches/xprintf.c:262-271 | The string before its NUL, cut at the precision |
| Printf.Putfld | patches/xprintf.c:162-279 | Every conversion fills the record so that its six pieces spell it, and takes one argument if it has one; 'n' has no text and stores the count |
| Printf.PutBody | patches/xprintf.c:147-150 | Two stretches and two runs of zeros are sent in order up to a refusal |
| Printf.PutText | patches/xprintf.c:145-150 | So are all six pieces |
| Printf.PutPadded | patches/xprintf.c:130-155 | With the spaces on the side that '-' selects |
| Printf.ReadFlags | patches/xprintf.c:76-90 | A flag is set if and only if its character stands among the flag characters, in any order and number |
| Printf.ReadNumber | patches/xprintf.c:20-25 | Reads all digits; the number is their value if that is below 9990, else one from 999 to 9989 |
| Printf.NumberIsValueIff | patches/xprintf.c:20-25 | A number is read as it stands if and only if it is below 9990 |
| Printf.ScanWidth | patches/xprintf.c:92-102 | A number or an argument; a negative one sets '-' |
| Printf.ScanPrec | patches/xprintf.c:104-115 | None, a number or an argument |
| Printf.ScanQual | patches/xprintf.c:117-127 | 'h', 'l', 'L', and "ll" read as 'L' |
| Printf.PrintDirective | patches/xprintf.c:74-156 | One directive sends what it stands for and leaves the format and argument list where the next one starts |
| Printf.FindPercent | patches/xprintf.c:61-66 | Finds the next '%' or the end |
| Printf.FormatLoop | patches/xprintf.c:55-157 | The loop does so piece by piece |
| Printf.Printf | patches/xprintf.c:51-159 | For every well-formed format the sink gets the text it stands for from the front until it refuses, the number returned is what it accepted, and each `%n` reached stores the number accepted before it |
| Printf.SignedParsesBack | patches/xprintf.c:172-197 | `%d` prints a sign and digits that read back as the argument, narrowed for 'h' |
| Printf.UnsignedPrintsMeaningIff | patches/xprintf.c:198-226 | Unsigned conversions print the argument's value if and only if it is not a "%l" argument of 2^31 or more; then 2^64 - 2^32 too much |
| Printf.PointerPrintsAddressIff | patches/xprintf.c:257-261 | `%p` prints the address if and only if it is below 2^31 |
| FormatText.DirectiveIs | patches/xprintf.c:74-127 | A directive spelled of flags, width, precision, qualifier and code is read as just these, its "*" taking the next arguments |
| FormatText.OneIs | patches/xprintf.c:74-156 | It converts the argument behind those of its "*", and the next directive starts behind that |
| FormatText.FormatMeans | patches/xprintf.c:51-159 | For every format of literals and directives the text is the concatenation of theirs, each "*" and each conversion taking the next argument, and each `%n` stores the length of the text before it |
| FormatText.PieceHasItsArguments | patches/xprintf.c:93-108 | Each piece has the arguments behind those of all pieces before it |
| OtherConversions.FloatIsSignedAndFilled | patches/xprintf.c:232-242 | A floating conversion is a sign as the flags ask for, zeros that fill the width only under '0' without '-' and only in a number, and its magnitude |
| OtherConversions.StringIsCut | patches/xprintf.c:262-271 | A string is printed up to its NUL or its precision, whichever comes first |
| OtherConversions.CharacterIsByte | patches/xprintf.c:169-171 | `%c` prints the argument as one byte |
| AlternateForm.ConversionFills | patches/xlitob.c:65-92 | Zeros of precision or width and digits are those the standard describes, behind any prefix |
| AlternateForm.SignedIsStandard | patches/xprintf.c:172-197 | `%d` prints what the standard asks for, for every argument |
| AlternateForm.WithoutHashIff | patches/xprintf.c:198-226 | Without '#' unsigned conversions print what the standard asks of the argument if and only if it is not a "%l" one of 2^31 or more |
| AlternateForm.LongExtendsItsSign | patches/xprintf.c:202-203 | `%lu` of 2^31 prints 18446744071562067968 |
| AlternateForm.AlternateHexIff | patches/xprintf.c:216-222 | `%x` prints what the standard asks of the argument if and only if it is not `%#x` of 0 and not a "%l" argument of 2^31 or more |
| AlternateForm.AlternateOctalIff | patches/xprintf.c:216-222 | `%o` does so if and only if flags, width, precision and value are such that no zero is too many, and it is not a "%l" argument of 2^31 or more |
| AlternateForm.OctalPrintsOneZeroTooMany | patches/xprintf.c:216-225 | `%#.5o` of 8 prints "000010", and "00010" is due |
| AlternateForm.HexPrefixesZero | patches/xprintf.c:216-225 | `%#x` of 0 prints "0x0", and "0" is due |
| AlternateForm.OctalPrefixesZero | patches/xprintf.c:216-225 | `%#o` of 0 prints "00", and "0" is due |
| AudioLifecycle.ExchangeRaisesGeneration | android-port/platform/android_audio.cpp:49-55 | The new word flips the pause bit and raises the generation by one, on 64 bits |
| AudioLifecycle.ExchangeDelivers | android-port/platform/android_audio.cpp:49-55 | A turn of the loop changes nothing or flips to what its thread wants, one generation up |
| AudioLifecycle.ExchangeSucceeds | android-port/platform/android_audio.cpp:51-54 | An exchange that is not spurious, from the word last read and with another state wanted, stores that state one generation up and ends the loop |
| AudioLifecycle.SetPausedSets | android-port/platform/android_audio.cpp:49-55 | Undisturbed, `set_paused` leaves the state it was called with |
| AudioLifecycle.SetPausedTakesEffect | android-port/platform/android_audio.cpp:49-55 | In every interleaving the word has the wanted state at some moment between the start of a call and its end |
| AudioLifecycle.InitInv | android-port/platform/android_audio.cpp:15-24 | The program starts with the invariant true: paused, nothing queued |
| AudioLifecycle.StepKeepsInv | android-port/platform/android_audio.cpp:49-136 | Every step of every thread keeps mutex, words and queue in order |
| AudioLifecycle.QueueIsCurrent | android-port/platform/android_audio.cpp:76-136 | In every interleaving all frames in the device queue were accepted under the present applied word |
| AudioLifecycle.WordTellsFlips | android-port/platform/android_audio.cpp:16-18 | Two words are equal if and only if the flips between them are a multiple of 2^63 |
| AudioLifecycle.NothingAddedUntilReset | android-port/platform/android_audio.cpp:97-100 | After a flip, a call not yet past its check adds nothing until a reset has been applied: the queue only loses frames |
| AudioLifecycle.ResetStartsEmpty | android-port/platform/android_audio.cpp:83-86 | When a reset is applied the queue is empty, and it is ready if and only if no flip has come meanwhile |
| AudioLifecycle.FlipsAreNotLost | android-port/platform/android_audio.cpp:16-17 | A servicer that finds the device resumed resets it if and only if the flips since the last reset are not a multiple of 2^63 |
| AudioLifecycle.OpenStartsEmpty | android-port/platform/android_audio.cpp:57-74 | A device just opened has nothing queued and is ready unless paused |
| AudioLifecycle.ServiceMakesReady | android-port/platform/android_audio.cpp:76-89 | A servicer that runs undisturbed after a resume empties the queue and makes it ready |
| AudioLifecycle.ReadyQueueGrows | android-port/platform/android_audio.cpp:97-100 | A call that runs undisturbed while the queue is ready adds its frames |
| AudioStream.FadeIndependentOfChunks | android-port/platform/android_audio.cpp:129-135 | However the frames since a reset are split into calls, frame j is scaled by j / total, and by 1 from total on |
| AudioStream.FadesByFrame | android-port/platform/android_audio.cpp:129-135 | Each sample is scaled by its frame's place since the reset, over the total, whatever chunk it came in |
| AudioStream.FadeContinues | android-port/platform/android_audio.cpp:129-135 | The remaining fade never exceeds the total, and fading from it continues the one fade |
| AudioStream.HistoryIndependentOfChunks | android-port/platform/android_audio.cpp:110-111 | The history is, sample by sample, the last eight of silence and all inputs, for chunks of any size |
| AudioStream.PlanFits | android-port/platform/android_audio.cpp:117-128 | The slice lies inside the converted frames, is as long as the limit allows, loses only frames at its front, and the queue stays within its limit |
| AudioStream.Durations | android-port/platform/android_audio.cpp:14 | The limit is 100 ms and the fade lasts 10 ms |
| AudioStream.FramesConverted | android-port/platform/android_audio.cpp:117 | Eight bytes are a frame, and an incomplete one does not count |
| AudioStream.TakesWholeFrames | android-port/platform/android_audio.cpp:98 | 1 to 96000 frames are taken, and nothing else |
| AudioStream.FramesAreSwapped | android-port/platform/android_audio.cpp:105-109 | The two samples of a frame change places and are scaled alike |
| AudioStream.GainScales | android-port/platform/android_audio.cpp:104 | Volumes from 0 to 1 bring 16-bit samples to their part of half the range, others to its ends, and no number to silence |
| AudioStream.Stream.constructor | android-port/platform/android_audio.cpp:57-69 | `open` starts with silence, an empty queue and the whole fade ahead |
| AudioStream.Stream.ResetQueue | android-port/platform/android_audio.cpp:42-46 | Empties the queue, silences the history and restarts the fade |
| AudioStream.Stream.Service | android-port/platform/android_audio.cpp:76-89 | Resets exactly when neither word read is paused and the second is not the applied one; resumed, it leaves a state that passes the check |
| AudioStream.Stream.SetFrequency | android-port/platform/android_audio.cpp:91-95 | A new valid rate silences the history; any other rate, or a converter not built, changes nothing |
| AudioStream.Stream.FillBuffer | android-port/platform/android_audio.cpp:101-109 | The history, then the samples scaled and with channels exchanged |
| AudioStream.Stream.KeepTail | android-port/platform/android_audio.cpp:110-111 | The new history is the end of the old one and the chunk |
| AudioStream.Stream.Fade | android-port/platform/android_audio.cpp:129-135 | The slice is faded in place from where the last call ended, and nothing more once the fade is over |
| AudioStream.Stream.Submit | android-port/platform/android_audio.cpp:129-137 | The faded slice goes to the queue, or nothing if the device refuses; the queue stays whole frames within its limit |
| AudioStream.Stream.MakeRoom | android-port/platform/android_audio.cpp:119-128 | Drops the backlog exactly when the limit would be passed, and picks the slice |
| AudioStream.Stream.QueueConverted | android-port/platform/android_audio.cpp:117-137 | Drops the backlog or keeps it as planned, and submits the planned slice |
| AudioStream.Stream.QueueSamples | android-port/platform/android_audio.cpp:97-138 | The whole call: a pause word that is paused or not the applied one, or samples it does not take, change nothing; others become history and the planned slice is queued, faded as one stretch since the last reset; if the device accepts, as many frames as were converted beyond the discarded ones, up to the limit |
| DeferredFree.SwapRemoveKeepsTick | patches/patches_main.c:69-73 | Moving the last entry into the place of an expired one loses no entry and visits none twice |
| DeferredFree.TickIgnoresOrder | patches/patches_main.c:66-77 | What a tick frees and leaves depends only on which entries there are |
| DeferredFree.TickShortensLife | patches/patches_main.c:68-69 | A tick takes one off every countdown, and frees exactly those at their last |
| DeferredFree.DelayIsLifeIff | patches/patches_heap.c:762 | A delay is its number of ticks if and only if it is 1 to 256 |
| DeferredFree.TickAdvancesClock | patches/patches_main.c:66-77 | Counting down is the same as comparing with the tick each push is due at |
| DeferredFree.FreedGrows | patches/patches_main.c:70 | What is freed by a tick is what was freed before and what is due at it |
| DeferredFree.FreedExactly | patches/patches_main.c:69-70 | A pointer has been freed exactly as often as it was pushed and has come due |
| DeferredFree.FreedOrPending | patches/patches_main.c:70-72 | Freed and waiting pushes add up to all pushes at every moment: none lost, none twice |
| DeferredFree.PushIsFreedOnTime | patches/patches_heap.c:756-764 | Every push of a run has a due of its own, at its place among the pushes, and there are no others; the delay's own number of ticks after it if and only if the delay is 1 to 256 |
| DeferredFree.TickCostsOneEach | patches/patches_main.c:67-68 | A tick lowers the ticks left to wait by exactly one per entry |
| DeferredFree.List.CountDown | patches/patches_main.c:66-77 | The loop counts every entry down once and frees exactly the expired ones, despite moving entries |
| DeferredFree.List.Tick | patches/patches_main.c:50-78 | Exactly the pushes due now are freed, and the entries left are those due later |
| DeferredFree.List.MakeRoom | patches/patches_heap.c:757-760 | Ticking while full ends, and there is then room |
| DeferredFree.List.Store | patches/patches_heap.c:761-763 | The new entry waits for its delay, and nothing else changes |
| DeferredFree.List.Push | patches/patches_heap.c:756-764 | The pointer is queued after the ticks a full list needs; the list never exceeds its capacity |
| Lockdown.SetTakesMaximum | patches/patches_matrix.c:139-146 | A set at an own or free slot raises that actor's count to the maximum, and no other actor's |
| Lockdown.DrawLowersByOne | patches/patches_matrix.c:188-199 | A draw lowers an actor's count by one over all its entries, and no other actor's |
| Lockdown.TableRefinesMap | patches/patches_matrix.c:134-199 | Over every run the table is a plain map of counters, duplicates or not, which misses exactly the sets that meet a full table without their actor |
| Lockdown.Table.Set | patches/patches_matrix.c:134-151 | Takes the maximum for the actor alone; lost exactly when the table is full and lacks the actor |
| Lockdown.Table.Clear | patches/patches_matrix.c:153-158 | No actor is locked afterwards |
| Lockdown.Table.Draw | patches/patches_matrix.c:188-199 | Skips interpolation exactly when the count is positive, and lowers it by one |
| Shuffle.WalkIsShort | patches/patches_balancing.c:539-551 | Each time round the ring passes a free slot, so the walk ends |
| Shuffle.LastRound | patches/patches_balancing.c:539-551 | However often it goes round, the probe lands where the draw modulo the free slots says |
| Shuffle.LandingUnique | patches/patches_balancing.c:538-551 | A draw determines the slot |
| Shuffle.Probe | patches/patches_balancing.c:537-551 | The probing loop ends on that slot |
| Shuffle.MarkIsByte | patches/patches_balancing.c:552 | A mark is its number with the top bit set, and never the free marker |
| Shuffle.Shuffle | patches/patches_balancing.c:530-553 | For every stream of draws the slots end as a permutation of the marks, each number in turn placed where its draw says |
| Shuffle.EachMarkOnce | patches/patches_balancing.c:552 | Each mark then stands in exactly one slot |

## Left out

- `reset`, `copyFrom`, copy, move, swap, the allocator and destructors of the slot map: memory management only, and `reset` gives up key uniqueness by design.
- The debug assertions of `get`, which would stop at an erased key of the last version: lookups are modelled as in a build without assertions.
- The lifetime of values: `erase` destroys a value and `pop` moves from it, so what an erased key finds again is, for a type that is not trivial, no longer a value (`lib/SlotMap/slot_map.h:835-840`, `lib/SlotMap/slot_map.h:1017`).
- Pages as heap objects: a page is a value in a sequence that the methods replace, so pointer stability and cells not yet constructed are not captured.
- SlotMap.SlotMap.Emplace: does not model running out of indices; more slots than the index field can name is a precondition, as the header's assertion demands.
- SlotIterator.Iterator.Advance: does not model `end()` wrapping to 0 on 32 bits when a map holds exactly 2^32 slots.
- FloatLayout.Ldtob: starts at the finished digit buffer; `_Ldunscale`, the scaling by `pows` and the chunking are left out.
- Rounding.SkipZeros: `%f` of a tiny number generates no digit and reads cells never written (`patches/xldtob.c:130-159`); their content is arbitrary here, but one of them is not '0', as else the loop leaves the buffer.
- Printf.Printf: leaves out a format that ends inside a directive, for which the code reads behind its end, reading `va_list`, and overflow of `int` widths and counts. Every string holds a NUL: with a precision the standard admits one without, and the length loop of the code (`patches/xprintf.c:264`) would read behind it. A `%n` count is returned, not written through a pointer.
- Smaller departures of `_Printf` from section 7.19.6.1, which the model follows without a theorem about the standard: "NaN" and "Inf" for nan and inf, the qualifiers "hh", "j", "z" and "t" and the conversions 'F', 'a' and 'A' printed as unknown letters, and a refused call that returns the count and no negative value.
- SDL's devices and conversion: a conversion may return anything that fits its buffer, and the device takes whole frames.
- Rounding of `float` samples: samples and fade factors are reals.
- Memory orders: atomics are sequentially consistent steps.
- AudioLifecycle.NothingAddedUntilReset: stated while fewer than 2^63 flips have happened since the last reset; WordTellsFlips shows that the word cannot tell more apart.
- The pause word and the audio data are two models: `AudioStream` takes the words read as inputs, and `AudioLifecycle` knows frames only by the word they were accepted under.
- `remaining_frames` and failing calls of `open`: they change nothing that is modelled.
- The routine that frees a pointer: it is a log, and it does not call back into the list. Heap rebuilds end a run.
- Shuffle.Shuffle: stated for at most 127 slots, as the mark of number 127 is the byte of a free slot.
- Lockdown.Table.Draw: models only the lockdown loop of the drawing routine, not the display list around it.
- Everything else in the repository: rendering, menus, camera, scheduler and ROM patches, the launcher, the JNI bridge and the tools; most would only add easy members.
