/** The in-memory layout of a packed array (PackedArray.h:21-30): item i occupies
    the bitsPerItem bits that start at global bit i * bitsPerItem, and global bit
    p is bit p % 32 of buffer word p / 32.  Reading an item, writing items, and
    what a write leaves alone are defined here on the buffer's words, as values. */
module Layout {
  import opened Word

  // ---------------------------------------------------------------------
  // Positions.

  /** Global bit p of a buffer. */
  function BitAt(buf: seq<Word>, p: nat): bool
    requires p < 32 * |buf|
  {
    buf[p / 32][p % 32]
  }

  /** Global bit 32 * w + b is bit b of word w. */
  lemma BitOfWord(buf: seq<Word>, w: nat, b: nat)
    requires w < |buf| && b < 32
    ensures BitAt(buf, 32 * w + b) == buf[w][b]
  {
    var p := 32 * w + b;
    assert p / 32 == w;
  }

  /** The global bit at which item i starts: items are laid end to end. */
  function Start(i: nat, bitsPerItem: nat): nat
  {
    if i == 0 then 0 else Start(i - 1, bitsPerItem) + bitsPerItem
  }

  /** Item i starts at bit i * bitsPerItem, the position the source computes. */
  lemma {:induction false} StartIsProduct(i: nat, bitsPerItem: nat)
    ensures Start(i, bitsPerItem) == i * bitsPerItem
  {
    if i > 0 {
      StartIsProduct(i - 1, bitsPerItem);
    }
  }

  /** Items are in order: item i ends no later than item j starts when i < j. */
  lemma {:induction false} StartMono(i: nat, j: nat, bitsPerItem: nat)
    requires i < j
    ensures Start(i + 1, bitsPerItem) <= Start(j, bitsPerItem)
  {
    if i + 1 < j {
      StartMono(i, j - 1, bitsPerItem);
    }
  }

  lemma MulMono(a: nat, b: nat, c: nat)
    requires a <= b
    ensures a * c <= b * c
  {
    assert b * c == a * c + (b - a) * c;
  }

  /** Number of buffer words for count items of bitsPerItem bits: the smallest
      number of 32-bit words that hold bitsPerItem * count bits
      (`((uint64_t)bitsPerItem * (uint64_t)count + 31) / 32`). */
  function BufferWords(bitsPerItem: nat, count: nat): (words: nat)
    requires 1 <= bitsPerItem <= 32
    ensures bitsPerItem * count <= 32 * words < bitsPerItem * count + 32
    ensures words <= count
  {
    MulMono(bitsPerItem, 32, count);
    (bitsPerItem * count + 31) / 32
  }

  /** A buffer of BufferWords(bitsPerItem, count) words holds count items. */
  lemma BufferHoldsCount(bitsPerItem: nat, count: nat)
    requires 1 <= bitsPerItem <= 32
    ensures Start(count, bitsPerItem) <= 32 * BufferWords(bitsPerItem, count)
  {
    StartIsProduct(count, bitsPerItem);
  }

  // ---------------------------------------------------------------------
  // Fields and items.

  /** The width bits of the buffer from global bit lo on, as a word whose width
      low bits are those bits and whose other bits are clear. */
  function Field(buf: seq<Word>, lo: nat, width: nat): Word
    requires width <= 32
    requires lo + width <= 32 * |buf|
  {
    seq(32, t requires 0 <= t < 32 => t < width && BitAt(buf, lo + t))
  }

  /** The buffer with the width bits from global bit lo on replaced by the width
      low bits of value; every other bit is kept. */
  function SetField(buf: seq<Word>, lo: nat, width: nat, value: Word): (r: seq<Word>)
    requires width <= 32
    ensures |r| == |buf|
  {
    seq(|buf|, w requires 0 <= w < |buf| =>
      seq(32, b requires 0 <= b < 32 =>
        var p := 32 * w + b;
        if lo <= p < lo + width then value[p - lo] else buf[w][b]))
  }

  /** Item i of the buffer. */
  function ItemAt(buf: seq<Word>, bitsPerItem: nat, i: nat): Word
    requires 1 <= bitsPerItem <= 32
    requires Start(i + 1, bitsPerItem) <= 32 * |buf|
  {
    Field(buf, Start(i, bitsPerItem), bitsPerItem)
  }

  /** The first count items of the buffer. */
  function Items(buf: seq<Word>, bitsPerItem: nat, count: nat): (items: seq<Word>)
    requires 1 <= bitsPerItem <= 32
    requires Start(count, bitsPerItem) <= 32 * |buf|
    ensures |items| == count
  {
    seq(count, i requires 0 <= i < count =>
      StartMono(i, count, bitsPerItem);
      ItemAt(buf, bitsPerItem, i))
  }

  /** The buffer after item i is set to value. */
  function WriteItem(buf: seq<Word>, bitsPerItem: nat, i: nat, value: Word): (r: seq<Word>)
    requires 1 <= bitsPerItem <= 32
    ensures |r| == |buf|
  {
    SetField(buf, Start(i, bitsPerItem), bitsPerItem, value)
  }

  /** The buffer after values[0], ..., values[k - 1] are set, in this order,
      as the items offset, ..., offset + k - 1. */
  function Written(buf: seq<Word>, bitsPerItem: nat, offset: nat, values: seq<Word>, k: nat): (r: seq<Word>)
    requires 1 <= bitsPerItem <= 32 && k <= |values|
    ensures |r| == |buf|
  {
    if k == 0 then buf
    else WriteItem(Written(buf, bitsPerItem, offset, values, k - 1), bitsPerItem, offset + k - 1, values[k - 1])
  }

  /** a and b hold the same bits everywhere outside the global bit range [lo, hi). */
  ghost predicate SameOutside(a: seq<Word>, b: seq<Word>, lo: nat, hi: nat)
  {
    && |a| == |b|
    && forall p :: 0 <= p < 32 * |a| && !(lo <= p < hi) ==> BitAt(a, p) == BitAt(b, p)
  }

  // ---------------------------------------------------------------------
  // Properties of fields.

  /** A field depends only on its own bits: it is the same in two buffers that
      agree outside a range of bits the field does not overlap. */
  lemma FieldUnchanged(a: seq<Word>, b: seq<Word>, lo: nat, width: nat, from: nat, to: nat)
    requires width <= 32 && lo + width <= 32 * |a|
    requires SameOutside(a, b, from, to)
    requires lo + width <= from || to <= lo
    ensures Field(a, lo, width) == Field(b, lo, width)
  {
    forall t | 0 <= t < 32
      ensures Field(a, lo, width)[t] == Field(b, lo, width)[t]
    {
      if t < width {
        assert BitAt(a, lo + t) == BitAt(b, lo + t);
      }
    }
  }

  /** Bit p after a field is set: from the value inside the field, as before outside it. */
  lemma SetFieldBit(buf: seq<Word>, lo: nat, width: nat, value: Word, p: nat)
    requires width <= 32 && p < 32 * |buf|
    ensures BitAt(SetField(buf, lo, width, value), p) ==
            if lo <= p < lo + width then value[p - lo] else BitAt(buf, p)
  {
    assert p == 32 * (p / 32) + p % 32;
  }

  /** Setting a field changes no bit outside it. */
  lemma SetFieldLocal(buf: seq<Word>, lo: nat, width: nat, value: Word)
    requires width <= 32
    ensures SameOutside(buf, SetField(buf, lo, width, value), lo, lo + width)
  {
    forall p | 0 <= p < 32 * |buf| && !(lo <= p < lo + width)
      ensures BitAt(buf, p) == BitAt(SetField(buf, lo, width, value), p)
    {
      SetFieldBit(buf, lo, width, value, p);
    }
  }

  /** Reading a field back after setting it to a value that fits gives the value. */
  lemma FieldAfterSet(buf: seq<Word>, lo: nat, width: nat, value: Word)
    requires 1 <= width <= 32 && lo + width <= 32 * |buf|
    requires Fits(value, width)
    ensures Field(SetField(buf, lo, width, value), lo, width) == value
  {
    var r := SetField(buf, lo, width, value);
    forall t | 0 <= t < 32
      ensures Field(r, lo, width)[t] == value[t]
    {
      if t < width {
        SetFieldBit(buf, lo, width, value, lo + t);
      }
    }
  }

  lemma SameOutsideTrans(a: seq<Word>, b: seq<Word>, c: seq<Word>, lo: nat, mid: nat, hi: nat)
    requires lo <= mid <= hi
    requires SameOutside(a, b, lo, mid) && SameOutside(b, c, mid, hi)
    ensures SameOutside(a, c, lo, hi)
  {
  }

  // ---------------------------------------------------------------------
  // Properties of items.

  /** Every item read from the buffer passes the range check of PackedArray.c:60,
      that is, it is below 2^bitsPerItem. */
  lemma ItemsFit(buf: seq<Word>, bitsPerItem: nat, count: nat)
    requires 1 <= bitsPerItem <= 32
    requires Start(count, bitsPerItem) <= 32 * |buf|
    ensures forall i :: 0 <= i < count ==> Fits(Items(buf, bitsPerItem, count)[i], bitsPerItem)
    ensures forall i :: 0 <= i < count ==> Val(Items(buf, bitsPerItem, count)[i]) < Pow2(bitsPerItem)
  {
    var items := Items(buf, bitsPerItem, count);
    forall i | 0 <= i < count
      ensures Fits(items[i], bitsPerItem) && Val(items[i]) < Pow2(bitsPerItem)
    {
      FitsBelow(items[i], bitsPerItem);
    }
  }

  /** Reading an item back after writing a value that fits gives the value. */
  lemma ReadAfterWrite(buf: seq<Word>, bitsPerItem: nat, i: nat, value: Word)
    requires 1 <= bitsPerItem <= 32
    requires Start(i + 1, bitsPerItem) <= 32 * |buf|
    requires Fits(value, bitsPerItem)
    ensures ItemAt(WriteItem(buf, bitsPerItem, i, value), bitsPerItem, i) == value
  {
    FieldAfterSet(buf, Start(i, bitsPerItem), bitsPerItem, value);
  }

  /** Writing item i leaves every other item as it was. */
  lemma WriteItemKeeps(buf: seq<Word>, bitsPerItem: nat, i: nat, value: Word, j: nat)
    requires 1 <= bitsPerItem <= 32
    requires Start(j + 1, bitsPerItem) <= 32 * |buf|
    requires j != i
    ensures ItemAt(WriteItem(buf, bitsPerItem, i, value), bitsPerItem, j) == ItemAt(buf, bitsPerItem, j)
  {
    var lo := Start(i, bitsPerItem);
    SetFieldLocal(buf, lo, bitsPerItem, value);
    if j < i {
      StartMono(j, i, bitsPerItem);
    } else {
      StartMono(i, j, bitsPerItem);
    }
    FieldUnchanged(buf, WriteItem(buf, bitsPerItem, i, value), Start(j, bitsPerItem), bitsPerItem,
                   lo, lo + bitsPerItem);
  }

  /** Writing one more value of a run sets the next item to it. */
  lemma WrittenStep(buf: seq<Word>, bitsPerItem: nat, offset: nat, values: seq<Word>, k: nat)
    requires 1 <= bitsPerItem <= 32 && k < |values|
    ensures Start(offset + k + 1, bitsPerItem) == Start(offset + k, bitsPerItem) + bitsPerItem
    ensures Written(buf, bitsPerItem, offset, values, k + 1)
            == SetField(Written(buf, bitsPerItem, offset, values, k), Start(offset + k, bitsPerItem), bitsPerItem, values[k])
  {
  }

  /** Writing a run of items leaves every bit outside the run as it was. */
  lemma {:induction false} WrittenLocal(buf: seq<Word>, bitsPerItem: nat, offset: nat, values: seq<Word>, k: nat)
    requires 1 <= bitsPerItem <= 32 && k <= |values|
    ensures SameOutside(buf, Written(buf, bitsPerItem, offset, values, k),
                        Start(offset, bitsPerItem), Start(offset + k, bitsPerItem))
  {
    if k > 0 {
      var before := Written(buf, bitsPerItem, offset, values, k - 1);
      WrittenLocal(buf, bitsPerItem, offset, values, k - 1);
      SetFieldLocal(before, Start(offset + k - 1, bitsPerItem), bitsPerItem, values[k - 1]);
      if k > 1 {
        StartMono(offset, offset + k - 1, bitsPerItem);
      }
      SameOutsideTrans(buf, before, Written(buf, bitsPerItem, offset, values, k),
                       Start(offset, bitsPerItem), Start(offset + k - 1, bitsPerItem),
                       Start(offset + k, bitsPerItem));
    }
  }

  /** Round trip: after a run of values that fit is written, each item of the
      run reads back as the value written there. */
  lemma {:induction false} WrittenItems(buf: seq<Word>, bitsPerItem: nat, offset: nat, values: seq<Word>, k: nat)
    requires 1 <= bitsPerItem <= 32 && k <= |values|
    requires Start(offset + k, bitsPerItem) <= 32 * |buf|
    requires forall j :: 0 <= j < k ==> Fits(values[j], bitsPerItem)
    ensures Items(Written(buf, bitsPerItem, offset, values, k), bitsPerItem, offset + k)[offset..] == values[..k]
  {
    if k > 0 {
      var last := k - 1;
      var before := Written(buf, bitsPerItem, offset, values, last);
      var after := Written(buf, bitsPerItem, offset, values, k);
      StartMono(offset + last, offset + k, bitsPerItem);
      WrittenItems(buf, bitsPerItem, offset, values, last);
      ReadAfterWrite(before, bitsPerItem, offset + last, values[last]);
      var itemsBefore := Items(before, bitsPerItem, offset + last);
      var itemsAfter := Items(after, bitsPerItem, offset + k);
      forall j | 0 <= j < k
        ensures itemsAfter[offset + j] == values[j]
      {
        if j < last {
          StartMono(offset + j, offset + last, bitsPerItem);
          WriteItemKeeps(before, bitsPerItem, offset + last, values[last], offset + j);
          assert itemsBefore[offset..][j] == values[..last][j];
        }
      }
    }
  }

  /** Writing a run of items leaves every item outside the run as it was. */
  lemma WrittenKeepsOthers(buf: seq<Word>, bitsPerItem: nat, offset: nat, values: seq<Word>, k: nat, j: nat)
    requires 1 <= bitsPerItem <= 32 && k <= |values|
    requires Start(j + 1, bitsPerItem) <= 32 * |buf|
    requires j < offset || offset + k <= j
    ensures ItemAt(Written(buf, bitsPerItem, offset, values, k), bitsPerItem, j) == ItemAt(buf, bitsPerItem, j)
  {
    WrittenLocal(buf, bitsPerItem, offset, values, k);
    if j < offset {
      StartMono(j, offset, bitsPerItem);
    } else if offset + k < j {
      StartMono(offset + k, j, bitsPerItem);
    }
    FieldUnchanged(buf, Written(buf, bitsPerItem, offset, values, k), Start(j, bitsPerItem), bitsPerItem,
                   Start(offset, bitsPerItem), Start(offset + k, bitsPerItem));
  }

  /** Inside a run of values that fit, each item reads back as its value. */
  lemma WrittenItemAt(buf: seq<Word>, bitsPerItem: nat, offset: nat, values: seq<Word>, j: nat)
    requires 1 <= bitsPerItem <= 32
    requires offset <= j < offset + |values| && Start(offset + |values|, bitsPerItem) <= 32 * |buf|
    requires forall i :: 0 <= i < |values| ==> Fits(values[i], bitsPerItem)
    ensures Start(j + 1, bitsPerItem) <= 32 * |buf|
    ensures ItemAt(Written(buf, bitsPerItem, offset, values, |values|), bitsPerItem, j) == values[j - offset]
  {
    var end := offset + |values|;
    StartMono(j, end, bitsPerItem);
    WrittenItems(buf, bitsPerItem, offset, values, |values|);
    var run := Items(Written(buf, bitsPerItem, offset, values, |values|), bitsPerItem, end);
    assert run[offset..][j - offset] == values[..|values|][j - offset];
  }

  /** Writing a run of values that fit replaces exactly that run of items:
      the items before and after it are kept. */
  lemma WrittenSplice(buf: seq<Word>, bitsPerItem: nat, count: nat, offset: nat, values: seq<Word>)
    requires 1 <= bitsPerItem <= 32
    requires offset + |values| <= count && Start(count, bitsPerItem) <= 32 * |buf|
    requires forall j :: 0 <= j < |values| ==> Fits(values[j], bitsPerItem)
    ensures var after := Items(Written(buf, bitsPerItem, offset, values, |values|), bitsPerItem, count);
            after[..offset] == Items(buf, bitsPerItem, count)[..offset]
    ensures var after := Items(Written(buf, bitsPerItem, offset, values, |values|), bitsPerItem, count);
            after[offset..offset + |values|] == values
    ensures var after := Items(Written(buf, bitsPerItem, offset, values, |values|), bitsPerItem, count);
            after[offset + |values|..] == Items(buf, bitsPerItem, count)[offset + |values|..]
  {
    var k := |values|;
    var end := offset + k;
    var before := Items(buf, bitsPerItem, count);
    var after := Items(Written(buf, bitsPerItem, offset, values, k), bitsPerItem, count);
    if end < count {
      StartMono(end, count, bitsPerItem);
    }
    forall j | 0 <= j < count && (j < offset || end <= j)
      ensures after[j] == before[j]
    {
      StartMono(j, count, bitsPerItem);
      WrittenKeepsOthers(buf, bitsPerItem, offset, values, k, j);
    }
    forall j | offset <= j < end
      ensures after[j] == values[j - offset]
    {
      WrittenItemAt(buf, bitsPerItem, offset, values, j);
    }
    assert after[..offset] == before[..offset];
    assert after[offset..end] == values;
    assert after[end..] == before[end..];
  }
}
