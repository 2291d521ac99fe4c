/** Machine words and the fixed RC5-32/12/16 parameters.

    Java's `int` is a 32-bit two's-complement integer whose `+`, `-`, `^`,
    `|`, `<<` and `>>>` are bit-identical to the corresponding `bv32`
    operations, so a Java `int` is modelled as an unsigned `bv32` word.
    A Java `byte` masked with `& 0xff` is modelled as a `bv8`.
 */
module Words {

  type Word = bv32
  type Byte = bv8

  /** Bits per word (w in RC5-w/r/b). */
  const WORD_SIZE: nat := 32
  /** Number of rounds (r). */
  const NUM_ROUNDS: nat := 12
  /** Key length in bytes (b). */
  const KEY_BYTES: nat := 16
  /** Key length in words (c = b / (w/8)). */
  const KEY_WORDS: nat := 4
  /** Size of the expanded key table (t = 2(r+1)). */
  const EXPANDED_KEY_SIZE: nat := 26

  /** The magic constants P32 = Odd((e-2)·2^32) and Q32 = Odd((phi-1)·2^32). */
  const P: Word := 0xb7e15163
  const Q: Word := 0x9e3779b9

  /** Java's `+` on `int`: addition modulo 2^32.  The cipher's word
      arithmetic goes through these named operations so that a step of a
      Java loop and the matching step of a specification are the same
      terms, whatever names their arguments go by. */
  function Add(x: Word, y: Word): Word
  {
    x + y
  }

  /** Java's `-` on `int`: subtraction modulo 2^32. */
  function Sub(x: Word, y: Word): Word
  {
    x - y
  }

  /** Java's `^` on `int`. */
  function Xor(x: Word, y: Word): Word
  {
    x ^ y
  }

  /** Java's `|` on `int`. */
  function Or(x: Word, y: Word): Word
  {
    x | y
  }

  /* Each identity below is proved first for a raw operand (`x + y`), where
     the solver's rewriter settles it once the function body is unfolded,
     and then lifted to the named operation by congruence. */

  lemma SubOfRawSum(x: Word, y: Word)
    ensures Sub(x + y, y) == x
  {
  }

  lemma SubUndoesAdd(x: Word, y: Word)
    ensures Sub(Add(x, y), y) == x
  {
    SubOfRawSum(x, y);
  }

  lemma AddOfRawDifference(x: Word, y: Word)
    ensures Add(x - y, y) == x
  {
  }

  lemma AddUndoesSub(x: Word, y: Word)
    ensures Add(Sub(x, y), y) == x
  {
    AddOfRawDifference(x, y);
  }

  lemma XorOfRawXor(x: Word, y: Word)
    ensures Xor(x ^ y, y) == x
  {
  }

  lemma XorTwice(x: Word, y: Word)
    ensures Xor(Xor(x, y), y) == x
  {
    XorOfRawXor(x, y);
  }
}
