# PackedArray: the generic bit-packing engine

PackedArray stores `count` unsigned items of `bitsPerItem` bits each
(1 to 32). The items are packed tightly, least significant bit first, into
an array of 32-bit words. Item `i` occupies the bits
`[i * bitsPerItem, (i + 1) * bitsPerItem)` of the buffer, and global bit `p`
is bit `p % 32` of word `p / 32`. Several items share a word, and an item
may straddle two words.

This project models the three operations of the generic engine in
`PackedArray.c`:

- `PackedArray_create` sizes the buffer as `ceil(bitsPerItem * count / 32)`
  words, zeroes the last word and records both parameters.
- `PackedArray_pack` writes a run of items at an offset. It walks a cursor
  (word, `startBit`, `bitsAvailable`) and an accumulator word through three
  cases: the item fits in the current word, the current word is exactly full,
  or the item straddles two words. Every store is a masked merge.
- `PackedArray_unpack` reads a run of items the same way. A straddling item
  is rebuilt from two words with an xor-merge.

The files:

- `word.dfy` (module `Word`) models a `uint32_t` as its 32 bits and defines
  the C operators `~ & | ^ << >>` on it. A shift by 32 or more cannot be
  written: `Shl` and `Shr` demand an amount below 32. The module also holds
  the item mask `(uint32_t)(1ULL << bitsPerItem) - 1`, computed with the
  64-bit shift, the 32-bit cast and the wrapping subtraction, and the range
  check of `pack`.
- `layout.dfy` (module `Layout`) defines the layout on values:
  - the buffer size;
  - the start bit of each item;
  - reading a field of bits, and the item sequence of a buffer;
  - writing a field, and writing a run of items (`Written`).

  Its lemmas give the round trip and the locality of such writes.
- `steps.dfy` (module `Steps`) proves each word-level expression of the three
  branches of `pack` and of `unpack` equal to the field operation it stands
  for.
- `packed_array.dfy` (module `PackedArrays`) holds the `PackedArray` class.
  Its fields are `bitsPerItem`, `count` and the `buffer` array. `Pack` and
  `Unpack` are methods with the source's `while` loops: the cursor, the mask,
  the accumulator word and the in-place stores. Each loop pass is a method of
  its own (`PackItem`, `UnpackItem`) with the three C branches. The allocation
  is a parameter that may fail.

## Model

| member | source | states |
|---|---|---|
| Word.MaskNumber | PackedArray.c:52 | The mask is the number 2^bitsPerItem - 1 for every width 1..32; at 32 the cast drops the shifted bit and the subtraction wraps to all ones. |
| Word.WrappingDecrement | PackedArray.c:52 | Casting 2^B (at most 2^32) to uint32_t and subtracting one in uint32_t gives 2^B - 1. |
| Word.MaskBits | PackedArray.c:52 | The mask has exactly the bitsPerItem low bits set, all 32 bits when bitsPerItem is 32. |
| Word.MaskValue | PackedArray.c:122 | The mask read as a number plus one is 2^bitsPerItem. |
| Word.RangeCheck | PackedArray.c:60 | `~mask & value` is zero if and only if the value has no bit set at or above bitsPerItem. |
| Word.FitsBelow | PackedArray.c:60 | A value passes the range check if and only if it is below 2^bitsPerItem. |
| Layout.BufferWords | PackedArray.c:14 | The word count is the ceiling of bitsPerItem * count / 32: its words hold all the bits, with fewer than 32 bits to spare, and it never exceeds count. |
| Layout.BufferHoldsCount | PackedArray.c:14 | A buffer of that many words holds every one of the count items. |
| PackedArrays.ProductInRange | PackedArray.c:14 | The 64-bit sum bitsPerItem * count + 31 that `create` divides by 32 never wraps around, because count is a uint32_t and bitsPerItem at most 32. `Init` applies it to its count. |
| Layout.StartIsProduct | PackedArray.c:47-48 | Item i starts at global bit i * bitsPerItem, the position from which the cursor's word and start bit are taken. |
| Layout.StartMono | PackedArray.h:21-30 | Items are laid out in order without overlap: item i ends no later than item j starts when i < j. |
| Layout.BitOfWord | PackedArray.h:21-30 | Global bit 32 * w + b is bit b of word w. |
| Layout.SetFieldLocal | PackedArray.c:64 | A masked merge of one item changes no buffer bit outside that item's bits. |
| Layout.FieldAfterSet | PackedArray.c:64 | Reading a field after setting it to a value that fits gives the value back. |
| Layout.FieldUnchanged | PackedArray.h:28-30 | A field depends only on its own bits. |
| Layout.ItemsFit | PackedArray.c:132 | Every item read from any buffer passes the range check and is below 2^bitsPerItem. |
| Layout.ReadAfterWrite | PackedArray.c:198-220 | Packing one item and unpacking it gives the packed value back. |
| Layout.WriteItemKeeps | PackedArray.c:56-99 | Packing one item leaves every other item as it was. |
| Layout.WrittenLocal | PackedArray.c:54-100 | Packing a run of items at offset leaves every bit outside [offset * B, (offset + n) * B) as it was, neighbours in shared words and tail bits included. |
| Layout.WrittenItems | PackedArray.c:33-101 | After a run of values that fit is packed at offset, the items offset .. offset + n - 1 read back as those values. |
| Layout.WrittenKeepsOthers | PackedArray.c:33-101 | Packing a run leaves every item outside the run as it was. |
| Layout.WrittenItemAt | PackedArray.c:33-101 | Each item inside a packed run reads back as its own value. |
| Layout.WrittenSplice | PackedArray.c:33-101 | Packing a run replaces exactly that run of items: the items before it and after it are kept. |
| Steps.PackWithinWord | PackedArray.c:62-68 | `(packed & ~(mask << startBit)) \| (value << startBit)` sets the item's bits to the value and keeps every other bit. |
| Steps.PackAtWordStart | PackedArray.c:69-81 | `(packed & ~mask) \| value` on a fresh word sets the item at bit 0 of that word. |
| Steps.PackAcrossWords | PackedArray.c:82-98 | The low part merged under `mask << startBit` into one word and the high part `value >> bitsAvailable` merged under `mask >> (32 - startBit)` into the next word together set the straddling item. |
| Steps.UnpackWithinWord | PackedArray.c:130-137 | `(packed >> startBit) & mask` is the item at the cursor. |
| Steps.UnpackAtWordStart | PackedArray.c:138-146 | `packed & mask` on the next word is the item that starts that word. |
| Steps.UnpackAcrossWords | PackedArray.c:147-161 | `low ^ ((low ^ high) & (mask >> bitsAvailable << bitsAvailable))` takes the low bits of the item from the current word and the high bits from the next, and is the straddling item. |
| Steps.UnpackAcrossBit | PackedArray.c:152-156 | The same rebuild, bit by bit. |
| PackedArrays.ItemMask | PackedArray.c:52 | The mask computed as the source does has exactly the bitsPerItem low bits set. |
| PackedArrays.PackedArray.Init | PackedArray.c:6-25 | The filled-in object records bitsPerItem and count and owns exactly ceil(bitsPerItem * count / 32) words. Only the last word is zeroed, so every bit past the last item is clear. The other words keep the memory's contents. |
| PackedArrays.PackedArray.Create | PackedArray.c:6-25 | Null exactly when the allocation fails. Otherwise a fresh, valid array with the requested parameters: the last word is zero, so the tail bits are clear, and every other word keeps the memory's contents. |
| PackedArrays.PackedArray.Pack | PackedArray.c:33-101 | The new buffer is the old buffer with input[0..n) written as the items offset .. offset + n - 1. The loop keeps startBit + bitsAvailable == 32 and the cursor at bit (offset + i) * bitsPerItem, with the word held in `packed` still to be stored. |
| PackedArrays.PackedArray.PackItem | PackedArray.c:56-99 | One loop pass passes the range check and, in each of the three cases, turns the buffer with i values of the run written into the buffer with i + 1 written (the held word counted as stored). It shifts by less than 32 only, keeps startBit + bitsAvailable == 32, and moves the cursor from the start of item offset + i to the start of the next item, into the next word when the item straddles. |
| PackedArrays.PackedArray.Unpack | PackedArray.c:103-163 | output[0..n) receives the items offset .. offset + n - 1, each below 2^bitsPerItem. The rest of output and the whole buffer are unchanged. |
| PackedArrays.PackedArray.UnpackItem | PackedArray.c:126-161 | One loop pass, with the cursor at the start of item `index`, reads exactly that item, which fits in bitsPerItem bits, in each of the three cases. It moves the cursor to the start of item index + 1, into the next word when the item straddles, and changes nothing. |
| PackedArrays.PackThenUnpack | PackedArray.c:252-261 | Packing values that fit at an offset and unpacking the same run gives the values back. The items before and after the run keep their values, and no buffer bit outside the run's bits changes. |
| PackedArrays.ZeroedWordIsLast | PackedArray.c:19 | For count > 0 the word the source zeroes, computed in wrapping uint64_t arithmetic, is the last word of the buffer. |
| PackedArrays.ZeroedWordOutsideEmptyBuffer | PackedArray.c:19 | For count == 0 the buffer has no word, yet the zeroed index is 2^64 - 1. |

## Left out

- `PackedArray_set`, `PackedArray_get`, `PackedArray_bufferSize` and `PackedArray_computeBitsPerItem` are declared in PackedArray.h:61-66, but their bodies are not part of this model.
- The per-width specialised pack and unpack engine is not part of this model.
- `PackedArray_destroy` and `free` are allocator calls.
- `malloc` is modelled by two parameters of `Create`: `allocationSucceeds` and `garbage`, which gives the contents of the fresh memory. The byte size `sizeof(uint32_t) * words` is modelled as an array of that many words.
- The self-test `main` and the benchmark harness (`rand`, `memcmp`, `printf`, wall-clock timing) are left out. The self-test's round trips are stated by `PackThenUnpack` and `ReadAfterWrite`.
- The `padding` field, the MSVC pragmas and the `__restrict` hints are not modelled. The input and output arrays are required to be distinct from the buffer.
- Words are sequences of 32 booleans, not machine integers. The uint32_t and uint64_t arithmetic on positions is unbounded `nat` arithmetic. `ProductInRange` shows that the products never wrap in the source, and the cursor fields stay at or below 32.
- The C `assert` calls become preconditions: the width check in `create`, and the range check in `pack`, which `PackItem` proves holds.
- PackedArrays.PackedArray.Pack: its postcondition ties the new buffer to `Written`. The item-level round trip, the splice and the bit-level locality are lemmas about `Written` (`WrittenItems`, `WrittenSplice`, `WrittenLocal`), which `PackThenUnpack` applies.
- PackedArrays.PackedArray.Pack, PackedArrays.PackedArray.Unpack: both require the word `offset * bitsPerItem / 32` to lie inside the buffer, because the source loads that word (and `pack` stores it back) even for an empty run. An empty run at the very end of a buffer whose items fill it exactly is outside the model.
- PackedArrays.PackedArray.Pack, PackedArrays.PackedArray.Unpack: compute `offset * bitsPerItem` as an unbounded number. `ProductInRange` covers this product too, since offset is a uint32_t, but the two methods do not apply it.
- PackedArrays.PackedArray.Create: assumes a 64-bit `size_t`. With a 32-bit `size_t`, the byte size `sizeof(uint32_t) * words` and the sum `sizeof(PackedArray) + bufferSize` wrap around, for example to 0 at bitsPerItem 32 and count 2^30. `malloc` then returns a block too small for the buffer, and `Valid`'s buffer length no longer describes the allocation.
- PackedArrays.PackThenUnpack: states locality with `Start(offset, bitsPerItem)`, which `StartIsProduct` equates with `offset * bitsPerItem`.
- Concurrency: there is none to model.

## Findings

| source | as written | input that shows it | evidently intended | confidence | as-written member | corrected member |
|---|---|---|---|---|---|---|
| PackedArray.c:19 | `create` zeroes the word at index `(bitsPerItem * count + 31) / 32 - 1`, computed in uint64_t | `count == 0`, any bitsPerItem: the buffer has no word, and the index wraps to 2^64 - 1, so the store indexes `buffer` out of bounds (undefined behaviour; with wrapping address arithmetic it overwrites `padding[1]`) | zero the last word only when the buffer has one | not executed | PackedArrays.ZeroedWordOutsideEmptyBuffer | PackedArrays.PackedArray.Init |
