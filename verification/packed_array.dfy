/** The PackedArray object (PackedArray.h:34-49) and its generic engine
    (PackedArray.c): creation, and packing and unpacking runs of items, each
    step of which rewrites or reads one 32-bit buffer word in place. */
module PackedArrays {
  import opened Word
  import opened Layout
  import opened Steps

  /** The index of the word that PackedArray_create zeroes, as the source
      computes it: `((uint64_t)bitsPerItem * (uint64_t)count + 31) / 32 - 1`
      in uint64_t arithmetic, which wraps below zero. */
  function ZeroedWordAsWritten(bitsPerItem: nat, count: nat): nat
  {
    ((bitsPerItem * count + 31) / 32 + TWO64 - 1) % TWO64
  }

  /** For a non-empty array the zeroed word is the last word of the buffer. */
  lemma ZeroedWordIsLast(bitsPerItem: nat, count: nat)
    requires 1 <= bitsPerItem <= 32 && 0 < count < TWO32
    ensures ZeroedWordAsWritten(bitsPerItem, count) == BufferWords(bitsPerItem, count) - 1
  {
    var words := BufferWords(bitsPerItem, count);
    MulMono(count, TWO32, bitsPerItem);
    assert 1 <= words < TWO64;
    WrapBelow(words);
  }

  lemma WrapBelow(words: nat)
    requires 1 <= words < TWO64
    ensures (words + TWO64 - 1) % TWO64 == words - 1
  {
  }

  /** With count == 0 the buffer has no word, yet the index written is
      2^64 - 1: the store indexes the buffer out of bounds, which is undefined
      behaviour (with wrapping address arithmetic it overwrites padding[1],
      the word just before the buffer). */
  lemma ZeroedWordOutsideEmptyBuffer(bitsPerItem: nat)
    requires 1 <= bitsPerItem <= 32
    ensures BufferWords(bitsPerItem, 0) == 0
    ensures ZeroedWordAsWritten(bitsPerItem, 0) == TWO64 - 1
  {
    assert (bitsPerItem * 0 + 31) / 32 == 0;
  }

  /** The 64-bit products of PackedArray.c:14, 19, 47-48 and 117-118, a
      bit count of at most 32 times a uint32_t, plus 31, never wrap around. */
  lemma ProductInRange(bitsPerItem: nat, k: nat)
    requires bitsPerItem <= 32 && k < TWO32
    ensures bitsPerItem * k + 31 < TWO64
  {
    MulMono(k, TWO32, bitsPerItem);
  }

  /** The item mask of PackedArray.c:52 and PackedArray.c:122,
      `(uint32_t)(1ULL << bitsPerItem) - 1`. */
  method ItemMask(bitsPerItem: nat) returns (mask: Word)
    requires 1 <= bitsPerItem <= 32
    ensures LowBits(mask, bitsPerItem)
  {
    mask := Mask(bitsPerItem);
    MaskBits(bitsPerItem);
  }

  /** After a straddling item the cursor wraps into the next word. */
  lemma CursorWraps(end: nat)
    requires 32 < end < 64
    ensures end % 32 == end - 32
  {
  }

  class PackedArray {
    /** Bits per item, 1 to 32. */
    const bitsPerItem: nat
    /** Number of items. */
    const count: nat
    /** The buffer words, ceil(bitsPerItem * count / 32) of them. */
    const buffer: array<Word>

    ghost predicate Valid()
    {
      && 1 <= bitsPerItem <= 32
      && count < TWO32
      && buffer.Length == BufferWords(bitsPerItem, count)
    }

    /** The items the array holds. */
    ghost function Contents(): (items: seq<Word>)
      requires Valid()
      reads buffer
      ensures |items| == count
    {
      BufferHoldsCount(bitsPerItem, count);
      Items(buffer[..], bitsPerItem, count)
    }

    /** The object malloc returned, filled in: its buffer words hold whatever
        the memory held (`garbage`) except the last, which is zeroed. */
    constructor Init(bitsPerItem: nat, count: nat, garbage: nat -> Word)
      requires 1 <= bitsPerItem <= 32 && count < TWO32
      ensures Valid() && fresh(buffer)
      ensures this.bitsPerItem == bitsPerItem && this.count == count
      ensures buffer.Length > 0 ==> buffer[buffer.Length - 1] == ZERO
      ensures forall k :: 0 <= k < buffer.Length - 1 ==> buffer[k] == garbage(k)
      ensures forall p :: bitsPerItem * count <= p < 32 * buffer.Length ==> !BitAt(buffer[..], p)
    {
      ProductInRange(bitsPerItem, count);
      var words := BufferWords(bitsPerItem, count);
      var block := new Word[words](k => garbage(k));
      if count > 0 {
        ZeroedWordIsLast(bitsPerItem, count);
        block[ZeroedWordAsWritten(bitsPerItem, count)] := ZERO;
      }
      this.bitsPerItem := bitsPerItem;
      this.count := count;
      buffer := block;
      new;
      forall p | bitsPerItem * count <= p < 32 * buffer.Length
        ensures !BitAt(buffer[..], p)
      {
        assert p / 32 == buffer.Length - 1;
      }
    }

    /** PackedArray_create: null when the allocation fails, otherwise a fresh
        array of count items of bitsPerItem bits. */
    static method Create(bitsPerItem: nat, count: nat, allocationSucceeds: bool, garbage: nat -> Word)
      returns (a: PackedArray?)
      requires 1 <= bitsPerItem <= 32 && count < TWO32
      ensures allocationSucceeds <==> a != null
      ensures a != null ==>
        && fresh(a) && fresh(a.buffer) && a.Valid()
        && a.bitsPerItem == bitsPerItem && a.count == count
        && (forall p :: bitsPerItem * count <= p < 32 * a.buffer.Length ==> !BitAt(a.buffer[..], p))
      ensures a != null && a.buffer.Length > 0 ==> a.buffer[a.buffer.Length - 1] == ZERO
      ensures a != null ==> forall k :: 0 <= k < a.buffer.Length - 1 ==> a.buffer[k] == garbage(k)
    {
      if allocationSucceeds {
        a := new PackedArray.Init(bitsPerItem, count, garbage);
      } else {
        a := null;
      }
    }

    /** PackedArray_pack: stores input[0..n) as the items offset .. offset + n - 1. */
    method Pack(offset: nat, input: array<Word>, n: nat)
      requires Valid()
      requires input != buffer
      requires n <= input.Length && offset + n <= count
      requires offset * bitsPerItem / 32 < buffer.Length
      requires forall k :: 0 <= k < n ==> Fits(input[k], bitsPerItem)
      modifies buffer
      ensures buffer[..] == Written(old(buffer[..]), bitsPerItem, offset, input[..n], n)
    {
      BufferHoldsCount(bitsPerItem, count);
      StartIsProduct(offset, bitsPerItem);
      var position: nat := offset * bitsPerItem;
      var out: nat := position / 32;
      var startBit: nat := position % 32;
      var bitsAvailable: nat := 32 - startBit;
      var mask := ItemMask(bitsPerItem);
      var packed := buffer[out];
      var i: nat := 0;
      var remaining: nat := n;
      ghost var initial := buffer[..];
      ghost var values := input[..n];
      while remaining > 0
        invariant i + remaining == n
        invariant startBit <= 32 && bitsAvailable == 32 - startBit
        invariant Start(offset + i, bitsPerItem) == 32 * out + startBit
        invariant out < buffer.Length
        invariant input[..n] == values
        invariant buffer[..][out := packed] == Written(initial, bitsPerItem, offset, values, i)
      {
        remaining := remaining - 1;
        var value := input[i];
        StartMono(offset + i, count, bitsPerItem);
        out, startBit, bitsAvailable, packed := PackItem(value, mask, out, startBit, bitsAvailable, packed, initial, offset, values, i);
        i := i + 1;
      }
      buffer[out] := packed;
    }

    /** One pass of the loop of PackedArray_pack: stores value at the cursor
        (bit startBit of word out, whose current contents are held in packed)
        and advances the cursor past it.  The cursor stands at item offset + i
        of a run values being written into initial; with the held word put in
        place, the buffer has the first i values written before the pass and
        the first i + 1 after it. */
    method PackItem(value: Word, mask: Word, out: nat, startBit: nat, bitsAvailable: nat, packed: Word,
                    ghost initial: seq<Word>, ghost offset: nat, ghost values: seq<Word>, ghost i: nat)
      returns (out': nat, startBit': nat, bitsAvailable': nat, packed': Word)
      requires 1 <= bitsPerItem <= 32
      requires LowBits(mask, bitsPerItem) && i < |values| && value == values[i] && Fits(value, bitsPerItem)
      requires startBit <= 32 && bitsAvailable == 32 - startBit
      requires Start(offset + i, bitsPerItem) == 32 * out + startBit
      requires out < buffer.Length && 32 * out + startBit + bitsPerItem <= 32 * buffer.Length
      requires buffer[..][out := packed] == Written(initial, bitsPerItem, offset, values, i)
      modifies buffer
      ensures startBit' <= 32 && bitsAvailable' == 32 - startBit'
      ensures Start(offset + i + 1, bitsPerItem) == 32 * out' + startBit'
      ensures out' < buffer.Length
      ensures buffer[..][out' := packed'] == Written(initial, bitsPerItem, offset, values, i + 1)
    {
      ghost var image := Written(initial, bitsPerItem, offset, values, i);
      WrittenStep(initial, bitsPerItem, offset, values, i);
      RangeCheck(mask, value, bitsPerItem);
      assert And(Not(mask), value) == ZERO;
      if bitsPerItem <= bitsAvailable {
        PackWithinWord(image, out, startBit, bitsPerItem, mask, value);
        out' := out;
        packed' := Or(And(packed, Not(Shl(mask, startBit))), Shl(value, startBit));
        startBit' := startBit + bitsPerItem;
        bitsAvailable' := bitsAvailable - bitsPerItem;
        assert buffer[..][out' := packed'] == image[out := packed'];
      } else if bitsAvailable == 0 {
        buffer[out] := packed;
        assert buffer[..] == image;
        out' := out + 1;
        packed' := buffer[out'];
        startBit' := 0;
        bitsAvailable' := 32;
        PackAtWordStart(image, out', bitsPerItem, mask, value);
        packed' := Or(And(packed', Not(mask)), value);
        startBit' := startBit' + bitsPerItem;
        bitsAvailable' := bitsAvailable' - bitsPerItem;
      } else {
        PackAcrossWords(image, out, startBit, bitsPerItem, mask, value);
        var low := Shl(value, startBit);
        var high := Shr(value, bitsAvailable);
        packed' := Or(And(packed, Not(Shl(mask, startBit))), low);
        buffer[out] := packed';
        assert buffer[..] == image[out := packed'];
        out' := out + 1;
        packed' := buffer[out'];
        packed' := Or(And(packed', Not(Shr(mask, 32 - startBit))), high);
        CursorWraps(startBit + bitsPerItem);
        startBit' := (startBit + bitsPerItem) % 32;
        bitsAvailable' := 32 - startBit';
      }
    }

    /** PackedArray_unpack: copies the items offset .. offset + n - 1 to output[0..n). */
    method Unpack(offset: nat, output: array<Word>, n: nat)
      requires Valid()
      requires output != buffer
      requires n <= output.Length && offset + n <= count
      requires offset * bitsPerItem / 32 < buffer.Length
      modifies output
      ensures output[..n] == Contents()[offset..offset + n]
      ensures output[n..] == old(output[n..])
      ensures forall k :: 0 <= k < n ==> Val(output[k]) < Pow2(bitsPerItem)
    {
      BufferHoldsCount(bitsPerItem, count);
      StartIsProduct(offset, bitsPerItem);
      var position: nat := offset * bitsPerItem;
      var inWord: nat := position / 32;
      var startBit: nat := position % 32;
      var bitsAvailable: nat := 32 - startBit;
      var mask := ItemMask(bitsPerItem);
      var packed := buffer[inWord];
      var o: nat := 0;
      var remaining: nat := n;
      ghost var items := Contents();
      while remaining > 0
        invariant o + remaining == n
        invariant startBit <= 32 && bitsAvailable == 32 - startBit
        invariant Start(offset + o, bitsPerItem) == 32 * inWord + startBit
        invariant inWord < buffer.Length && packed == buffer[inWord]
        invariant forall k :: 0 <= k < o ==> output[k] == items[offset + k]
        invariant output[o..] == old(output[o..])
      {
        remaining := remaining - 1;
        StartMono(offset + o, count, bitsPerItem);
        var value;
        value, inWord, startBit, bitsAvailable, packed := UnpackItem(mask, inWord, startBit, bitsAvailable, packed, offset + o);
        assert value == items[offset + o];
        output[o] := value;
        o := o + 1;
      }
      assert output[..n] == items[offset..offset + n];
      ItemsFit(buffer[..], bitsPerItem, count);
    }

    /** One pass of the loop of PackedArray_unpack: reads the item at the
        cursor (bit startBit of word inWord, held in packed) and advances the
        cursor past it. */
    method UnpackItem(mask: Word, inWord: nat, startBit: nat, bitsAvailable: nat, packed: Word, ghost index: nat)
      returns (value: Word, inWord': nat, startBit': nat, bitsAvailable': nat, packed': Word)
      requires 1 <= bitsPerItem <= 32
      requires LowBits(mask, bitsPerItem)
      requires startBit <= 32 && bitsAvailable == 32 - startBit
      requires inWord < buffer.Length && packed == buffer[inWord]
      requires Start(index, bitsPerItem) == 32 * inWord + startBit
      requires Start(index + 1, bitsPerItem) <= 32 * buffer.Length
      ensures value == ItemAt(buffer[..], bitsPerItem, index)
      ensures Fits(value, bitsPerItem)
      ensures startBit' <= 32 && bitsAvailable' == 32 - startBit'
      ensures Start(index + 1, bitsPerItem) == 32 * inWord' + startBit'
      ensures inWord' < buffer.Length && packed' == buffer[inWord']
    {
      if bitsPerItem <= bitsAvailable {
        UnpackWithinWord(buffer[..], inWord, startBit, bitsPerItem, mask);
        value := And(Shr(packed, startBit), mask);
        inWord', packed' := inWord, packed;
        startBit' := startBit + bitsPerItem;
        bitsAvailable' := bitsAvailable - bitsPerItem;
      } else if bitsAvailable == 0 {
        inWord' := inWord + 1;
        packed' := buffer[inWord'];
        UnpackAtWordStart(buffer[..], inWord', bitsPerItem, mask);
        value := And(packed', mask);
        startBit' := bitsPerItem;
        bitsAvailable' := 32 - bitsPerItem;
      } else {
        UnpackAcrossWords(buffer[..], inWord, startBit, bitsPerItem, mask);
        var low := Shr(packed, startBit);
        inWord' := inWord + 1;
        packed' := buffer[inWord'];
        var high := Shl(packed', 32 - startBit);
        value := Xor(low, And(Xor(low, high), Shl(Shr(mask, bitsAvailable), bitsAvailable)));
        CursorWraps(startBit + bitsPerItem);
        startBit' := (startBit + bitsPerItem) % 32;
        bitsAvailable' := 32 - startBit';
      }
    }
  }

  /** The self-test's round trip (PackedArray.c:198-219, 249-260): items packed
      at an offset unpack to the same values, the items around them keep their
      values, and no buffer bit outside the packed run changes, the unused bits
      after the last item included. */
  method PackThenUnpack(a: PackedArray, offset: nat, values: array<Word>, result: array<Word>, n: nat)
    requires a.Valid()
    requires values != a.buffer && result != a.buffer && values != result
    requires 0 < n <= values.Length && n <= result.Length && offset + n <= a.count
    requires forall k :: 0 <= k < n ==> Fits(values[k], a.bitsPerItem)
    modifies a.buffer, result
    ensures result[..n] == values[..n]
    ensures a.Contents()[..offset] == old(a.Contents())[..offset]
    ensures a.Contents()[offset + n..] == old(a.Contents())[offset + n..]
    ensures SameOutside(old(a.buffer[..]), a.buffer[..], Start(offset, a.bitsPerItem), Start(offset + n, a.bitsPerItem))
  {
    var B := a.bitsPerItem;
    BufferHoldsCount(B, a.count);
    StartIsProduct(offset, B);
    StartMono(offset, a.count, B);
    ghost var before := a.buffer[..];
    ghost var run := values[..n];
    a.Pack(offset, values, n);
    ghost var written := a.buffer[..];
    WrittenSplice(before, B, a.count, offset, run);
    WrittenLocal(before, B, offset, run, n);
    ghost var items := a.Contents();
    a.Unpack(offset, result, n);
    assert a.buffer[..] == written;
    assert result[..n] == items[offset..offset + n] == run;
  }
}
