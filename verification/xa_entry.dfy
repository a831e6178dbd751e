/** The machine-word encoding of XArray entries. The bottom two bits of a
    word decide how the array reads it: `00` a pointer, `10` an internal
    entry, `x1` an integer value shifted up by one bit. */
module XaEntry {
  import opened Bits

  const BITS_PER_XA_VALUE: nat := BITS_PER_LONG - 1

  /** `2^BITS_PER_XA_VALUE`: an integer at or above this bound is negative
      when read as a `long`, and encoding it is a caller error. */
  const VALUE_LIMIT: nat := 0x8000_0000_0000_0000

  predicate IsValue(w: Word) {
    w % 2 == 1
  }

  predicate IsInternal(w: Word) {
    w % 4 == 2
  }

  predicate IsPointer(w: Word) {
    w % 4 == 0
  }

  /** `xa_mk_value`: `(v << 1) | 1` on a 64-bit word, so the top bit of `v`
      is shifted out. The result is always classified as a value, and it
      decodes back to `v` whenever `v` is within the documented range. */
  function MkValue(v: Word): (e: Word)
    ensures IsValue(e)
    ensures v < VALUE_LIMIT ==> ToValue(e) == v
  {
    assert (2 * v) % WORD_LIMIT == if v < VALUE_LIMIT then 2 * v else 2 * v - WORD_LIMIT;
    (2 * v) % WORD_LIMIT + 1
  }

  /** `xa_to_value`: a logical right shift by one. */
  function ToValue(e: Word): Word {
    e / 2
  }

  /** The three classes partition all words: every word is exactly one of
      pointer, internal entry or value. */
  lemma KindsPartition(w: Word)
    ensures IsValue(w) <==> !IsPointer(w) && !IsInternal(w)
    ensures !(IsPointer(w) && IsInternal(w))
  {
    var q, r := w / 4, w % 4;
    assert w == (2 * q + r / 2) * 2 + r % 2;
    DivModUnique(w, 2, 2 * q + r / 2, r % 2);
  }

  /** Decoding then re-encoding a value entry gives the same word, and the
      decoded integer is always within the valid range. */
  lemma ValueRoundTrip(e: Word)
    requires IsValue(e)
    ensures ToValue(e) < VALUE_LIMIT
    ensures MkValue(ToValue(e)) == e
  {
  }

  /** Outside the documented range the encoding loses the top bit, which is
      why the source warns on such an input. */
  lemma MkValueDropsTopBit(v: Word)
    requires v >= VALUE_LIMIT
    ensures ToValue(MkValue(v)) == v - VALUE_LIMIT
  {
  }

  /** Encoding preserves order on the valid range, so it is injective there
      and encoded values compare like the integers they hold. */
  lemma MkValueStrictlyMonotone(v1: Word, v2: Word)
    requires v1 < v2 < VALUE_LIMIT
    ensures MkValue(v1) < MkValue(v2)
  {
  }

  /** No pointer word and no internal word is ever read as a value. */
  lemma PointerAndInternalAreNotValues(w: Word)
    requires IsPointer(w) || IsInternal(w)
    ensures !IsValue(w)
  {
  }
}
