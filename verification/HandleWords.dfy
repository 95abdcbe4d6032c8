/**
 The two word sizes the array adapters move between: a facade handle is a
 64-bit signed integer, a native handle a 32-bit signed integer. On the
 little-endian targets the library supports, a 64-bit handle is a pair of
 32-bit words, low word first.
 */
module HandleWords {

  const TWO_TO_31 := 0x8000_0000
  const TWO_TO_32 := 0x1_0000_0000
  const TWO_TO_63 := 0x8000_0000_0000_0000

  type Int32 = x: int | -TWO_TO_31 <= x < TWO_TO_31

  type Int64 = x: int | -TWO_TO_63 <= x < TWO_TO_63

  /** `(int32_t)(h & 0xFFFFFFFF)`: mask the low 32 bits, then reinterpret them as signed. */
  function LowWord(h: Int64): Int32 {
    var masked := h % TWO_TO_32;
    if masked < TWO_TO_31 then masked else masked - TWO_TO_32
  }

  /** The upper 32 bits of a two's complement 64-bit value, as a signed word. */
  function HighWord(h: Int64): Int32 {
    h / TWO_TO_32
  }

  /** The 64-bit value whose low word is `lo` and whose high word is `hi`. */
  function Join(lo: Int32, hi: Int32): Int64 {
    hi * TWO_TO_32 + lo % TWO_TO_32
  }

  /** The high word that sign extension gives to a 32-bit value. */
  function SignWord(w: Int32): Int32 {
    if w < 0 then -1 else 0
  }

  /** A handle that a native 32-bit handle can represent. */
  predicate FitsInt32(h: Int64) {
    -TWO_TO_31 <= h < TWO_TO_31
  }

  /** Splitting a handle into words and joining words into a handle are inverse. */
  lemma JoinSplit(h: Int64, lo: Int32, hi: Int32)
    ensures Join(LowWord(h), HighWord(h)) == h
    ensures LowWord(Join(lo, hi)) == lo && HighWord(Join(lo, hi)) == hi
  {
  }

  /** Sign extension to 64 bits keeps the low word and fills the high word with the sign. */
  lemma SignExtensionWords(w: Int32)
    ensures LowWord(w) == w && HighWord(w) == SignWord(w) && Join(w, SignWord(w)) == w
  {
  }
}
