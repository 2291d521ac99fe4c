/** The two rotation primitives, and the way Java evaluates them.

    A Java shift count is an `int`, i.e. a 32-bit word, and Java uses only its
    low five bits (`count & 31`).  `WORD_SIZE - shift` is a wrapping 32-bit
    subtraction.  Modelling the count as a `Word` keeps both facts exact, and
    covers every Java `int` count, negative ones included.
 */
module Rotation {
  import opened Words

  /** Java's `v << s` on an `int`. */
  function ShiftLeft(v: Word, s: Word): Word
  {
    v << (s & 31)
  }

  /** Java's `v >>> s` on an `int`. */
  function ShiftRightUnsigned(v: Word, s: Word): Word
  {
    v >> (s & 31)
  }

  /** `rotateLeft(value, shift)` as RC5.java writes it (lines 20-23). */
  function JavaRotateLeft(v: Word, s: Word): Word
  {
    Or(ShiftLeft(v, s), ShiftRightUnsigned(v, 32 - s))
  }

  /** `rotateRight(value, shift)` as RC5.java writes it (lines 25-28). */
  function JavaRotateRight(v: Word, s: Word): Word
  {
    Or(ShiftRightUnsigned(v, s), ShiftLeft(v, 32 - s))
  }

  /** Left rotation by the low five bits of the count: bit `i` of the count
      contributes a fixed rotation by `2^i`.  The cipher is stated with this
      function; `JavaRotateLeftRotates` shows that it is exactly what the
      Java expression computes. */
  function RotateLeft(v: Word, s: Word): Word
  {
    var r1 := if s & 1 == 0 then v else v.RotateLeft(1);
    var r2 := if s & 2 == 0 then r1 else r1.RotateLeft(2);
    var r4 := if s & 4 == 0 then r2 else r2.RotateLeft(4);
    var r8 := if s & 8 == 0 then r4 else r4.RotateLeft(8);
    if s & 16 == 0 then r8 else r8.RotateLeft(16)
  }

  /** Right rotation by the low five bits of the count. */
  function RotateRight(v: Word, s: Word): Word
  {
    var r1 := if s & 1 == 0 then v else v.RotateRight(1);
    var r2 := if s & 2 == 0 then r1 else r1.RotateRight(2);
    var r4 := if s & 4 == 0 then r2 else r2.RotateRight(4);
    var r8 := if s & 8 == 0 then r4 else r4.RotateRight(8);
    if s & 16 == 0 then r8 else r8.RotateRight(16)
  }

  /** The Java shift-or is a true left rotation by `shift mod 32` for every
      count, negative ones and those of 32 or more included. */
  lemma JavaRotateLeftRotates(v: Word, s: Word)
    ensures JavaRotateLeft(v, s) == RotateLeft(v, s)
  {
  }

  /** The Java shift-or is a true right rotation by `shift mod 32`. */
  lemma JavaRotateRightRotates(v: Word, s: Word)
    ensures JavaRotateRight(v, s) == RotateRight(v, s)
  {
  }

  /** Rotating right by the same count undoes a left rotation. */
  lemma RotateRightUndoesLeft(v: Word, s: Word)
    ensures RotateRight(RotateLeft(v, s), s) == v
  {
  }

  /** Rotating left by the same count undoes a right rotation. */
  lemma RotateLeftUndoesRight(v: Word, s: Word)
    ensures RotateLeft(RotateRight(v, s), s) == v
  {
  }

  /** The Java rotations are inverse to each other for every count. */
  lemma JavaRotationsAreInverse(v: Word, s: Word)
    ensures JavaRotateRight(JavaRotateLeft(v, s), s) == v
    ensures JavaRotateLeft(JavaRotateRight(v, s), s) == v
  {
    JavaRotateLeftRotates(v, s);
    JavaRotateRightRotates(RotateLeft(v, s), s);
    RotateRightUndoesLeft(v, s);
    JavaRotateRightRotates(v, s);
    JavaRotateLeftRotates(RotateRight(v, s), s);
    RotateLeftUndoesRight(v, s);
  }

  /** Because Java uses only the low five bits of the count, a count that is
      a multiple of the word size (0 included) leaves the word unchanged. */
  lemma RotateByMultipleOfWordSize(v: Word, s: Word)
    requires s & 31 == 0
    ensures JavaRotateLeft(v, s) == v && JavaRotateRight(v, s) == v
  {
    JavaRotateLeftRotates(v, s);
    JavaRotateRightRotates(v, s);
  }
}
