/** The word-level expressions of the three branches of PackedArray_pack and
    PackedArray_unpack (PackedArray.c), each shown equal to the field operation
    of the layout it stands for.  The cursor is at bit s of word w, that is at
    global bit 32 * w + s. */
module Steps {
  import opened Word
  import opened Layout

  // ---------------------------------------------------------------------
  // Pack.

  /** The item fits in what is left of word w (PackedArray.c:62-68):
      `packed & ~(mask << startBit) | value << startBit` sets the field. */
  lemma PackWithinWord(buf: seq<Word>, w: nat, s: nat, bitsPerItem: nat, mask: Word, value: Word)
    requires 1 <= bitsPerItem <= 32 && s + bitsPerItem <= 32 && w < |buf|
    requires LowBits(mask, bitsPerItem) && Fits(value, bitsPerItem)
    ensures buf[w := Or(And(buf[w], Not(Shl(mask, s))), Shl(value, s))]
            == SetField(buf, 32 * w + s, bitsPerItem, value)
  {
    var lhs := buf[w := Or(And(buf[w], Not(Shl(mask, s))), Shl(value, s))];
    var rhs := SetField(buf, 32 * w + s, bitsPerItem, value);
    forall v | 0 <= v < |buf|
      ensures lhs[v] == rhs[v]
    {
      forall b | 0 <= b < 32
        ensures lhs[v][b] == rhs[v][b]
      {
        if v == w && s <= b && b - s >= bitsPerItem {
          assert !value[b - s];
        }
      }
    }
  }

  /** The item starts a fresh word (PackedArray.c:69-81, after word w - 1 is
      full): `(packed & ~mask) | value` sets the field. */
  lemma PackAtWordStart(buf: seq<Word>, w: nat, bitsPerItem: nat, mask: Word, value: Word)
    requires 1 <= bitsPerItem <= 32 && w < |buf|
    requires LowBits(mask, bitsPerItem) && Fits(value, bitsPerItem)
    ensures buf[w := Or(And(buf[w], Not(mask)), value)] == SetField(buf, 32 * w, bitsPerItem, value)
  {
    assert Shl(mask, 0) == mask;
    assert Shl(value, 0) == value;
    PackWithinWord(buf, w, 0, bitsPerItem, mask, value);
  }

  /** The item straddles words w and w + 1 (PackedArray.c:82-98): the low
      `value << startBit` goes to the top of word w, the high
      `value >> bitsAvailable` to the bottom of word w + 1 under
      `mask >> (32 - startBit)`; together they set the field. */
  lemma PackAcrossWords(buf: seq<Word>, w: nat, s: nat, bitsPerItem: nat, mask: Word, value: Word)
    requires 1 <= bitsPerItem <= 32 && s < 32 && 32 < s + bitsPerItem && w + 1 < |buf|
    requires LowBits(mask, bitsPerItem) && Fits(value, bitsPerItem)
    ensures buf[w := Or(And(buf[w], Not(Shl(mask, s))), Shl(value, s))]
               [w + 1 := Or(And(buf[w + 1], Not(Shr(mask, 32 - s))), Shr(value, 32 - s))]
            == SetField(buf, 32 * w + s, bitsPerItem, value)
  {
    var lhs := buf[w := Or(And(buf[w], Not(Shl(mask, s))), Shl(value, s))]
                  [w + 1 := Or(And(buf[w + 1], Not(Shr(mask, 32 - s))), Shr(value, 32 - s))];
    var rhs := SetField(buf, 32 * w + s, bitsPerItem, value);
    forall v | 0 <= v < |buf|
      ensures lhs[v] == rhs[v]
    {
      forall b | 0 <= b < 32
        ensures lhs[v][b] == rhs[v][b]
      {
        if v == w + 1 && b + 32 - s >= bitsPerItem && b + 32 - s < 32 {
          assert !value[b + 32 - s];
        }
      }
    }
  }

  // ---------------------------------------------------------------------
  // Unpack.

  /** The item lies within word w (PackedArray.c:130-137):
      `(packed >> startBit) & mask` reads the field. */
  lemma UnpackWithinWord(buf: seq<Word>, w: nat, s: nat, bitsPerItem: nat, mask: Word)
    requires 1 <= bitsPerItem <= 32 && s + bitsPerItem <= 32 && w < |buf|
    requires LowBits(mask, bitsPerItem)
    ensures And(Shr(buf[w], s), mask) == Field(buf, 32 * w + s, bitsPerItem)
  {
    forall t | 0 <= t < 32
      ensures And(Shr(buf[w], s), mask)[t] == Field(buf, 32 * w + s, bitsPerItem)[t]
    {
      if t < bitsPerItem {
        BitOfWord(buf, w, s + t);
      }
    }
  }

  /** The item starts a fresh word (PackedArray.c:138-146): `packed & mask`
      reads the field. */
  lemma UnpackAtWordStart(buf: seq<Word>, w: nat, bitsPerItem: nat, mask: Word)
    requires 1 <= bitsPerItem <= 32 && w < |buf|
    requires LowBits(mask, bitsPerItem)
    ensures And(buf[w], mask) == Field(buf, 32 * w, bitsPerItem)
  {
    assert Shr(buf[w], 0) == buf[w];
    UnpackWithinWord(buf, w, 0, bitsPerItem, mask);
  }

  /** The item straddles words w and w + 1 (PackedArray.c:147-161): with
      `low = packed >> startBit` from word w and `high = packed << (32 - startBit)`
      from word w + 1, `low ^ ((low ^ high) & (mask >> bitsAvailable << bitsAvailable))`
      takes the bits below bitsAvailable from low and the rest from high, and
      so reads the field. */
  lemma UnpackAcrossWords(buf: seq<Word>, w: nat, s: nat, bitsPerItem: nat, mask: Word)
    requires 1 <= bitsPerItem <= 32 && s < 32 && 32 < s + bitsPerItem && w + 1 < |buf|
    requires LowBits(mask, bitsPerItem)
    ensures
      var low := Shr(buf[w], s);
      var high := Shl(buf[w + 1], 32 - s);
      Xor(low, And(Xor(low, high), Shl(Shr(mask, 32 - s), 32 - s)))
        == Field(buf, 32 * w + s, bitsPerItem)
  {
    var low := Shr(buf[w], s);
    var high := Shl(buf[w + 1], 32 - s);
    var merged := Xor(low, And(Xor(low, high), Shl(Shr(mask, 32 - s), 32 - s)));
    forall t | 0 <= t < 32
      ensures merged[t] == Field(buf, 32 * w + s, bitsPerItem)[t]
    {
      UnpackAcrossBit(buf, w, s, bitsPerItem, mask, t);
    }
  }

  /** Bit t of the straddling read. */
  lemma UnpackAcrossBit(buf: seq<Word>, w: nat, s: nat, bitsPerItem: nat, mask: Word, t: nat)
    requires 1 <= bitsPerItem <= 32 && s < 32 && 32 < s + bitsPerItem && w + 1 < |buf|
    requires LowBits(mask, bitsPerItem) && t < 32
    ensures
      var low := Shr(buf[w], s);
      var high := Shl(buf[w + 1], 32 - s);
      Xor(low, And(Xor(low, high), Shl(Shr(mask, 32 - s), 32 - s)))[t]
        == Field(buf, 32 * w + s, bitsPerItem)[t]
  {
    if t < bitsPerItem {
      if s + t < 32 {
        BitOfWord(buf, w, s + t);
      } else {
        BitOfWord(buf, w + 1, s + t - 32);
      }
    }
  }
}
