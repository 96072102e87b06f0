/** The machine integers and the small result types that the modelled C++ code uses. */
module Machine {

  const WORD: nat := 0x1_0000_0000_0000_0000

  /** std::numeric_limits<size_t>::max(), also std::string::npos. */
  const MARKER: nat := 0xFFFF_FFFF_FFFF_FFFF

  /** std::string::max_size() on the platforms the code targets. */
  const MAX_STRING: nat := 0x7FFF_FFFF_FFFF_FFFF

  /** A 64-bit size_t. Storing a value outside this range does not verify, so every
      subtraction stored in a variable of this type is proved not to wrap. */
  type size_t = x: int | 0 <= x < WORD

  /** The characters that index the 256-entry table without a sign extension. */
  type Ascii = c: char | c as int < 128 witness 'A'

  /** The word is 64 bits wide, its greatest value is the marker, and a string may be half as long. */
  lemma WordSizes()
    ensures WORD == 0x1_0000_0000 * 0x1_0000_0000
    ensures WORD == MARKER + 1 && MARKER == 2 * MAX_STRING + 1
  {
  }

  datatype Option<+T> = None | Some(value: T)
}
