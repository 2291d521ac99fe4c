/** The RC5-32/12/16 block cipher (`encrypt` and `decrypt`, RC5.java lines
    60-92), following section 6 of RFC 2040.

    A block is two words.  Encryption whitens the block with table words 0
    and 1 and then applies 12 rounds; round `i` uses table words `2i` and
    `2i + 1`.  Decryption applies the inverse rounds from 12 down to 1 and
    then removes the whitening.  Nothing here depends on where the table
    came from: the round trip holds for every 26-word table.
 */
module BlockCipher {
  import opened Words
  import opened Rotation

  /** The two words `A` and `B` of a block. */
  datatype Block = Block(a: Word, b: Word)

  /** Round `i` of encryption (lines 68-69).  The new `A` is used at once
      to compute the new `B`. */
  function Round(S: seq<Word>, i: nat, x: Block): Block
    requires |S| == EXPANDED_KEY_SIZE && 1 <= i <= NUM_ROUNDS
  {
    var a := Add(RotateLeft(Xor(x.a, x.b), x.b), S[2 * i]);
    var b := Add(RotateLeft(Xor(x.b, a), a), S[2 * i + 1]);
    Block(a, b)
  }

  /** Round `i` of decryption (lines 85-86): `B` is recovered first, from
      the new `A`, and then `A` from the recovered `B`. */
  function InvRound(S: seq<Word>, i: nat, y: Block): Block
    requires |S| == EXPANDED_KEY_SIZE && 1 <= i <= NUM_ROUNDS
  {
    var b := Xor(RotateRight(Sub(y.b, S[2 * i + 1]), y.a), y.a);
    var a := Xor(RotateRight(Sub(y.a, S[2 * i]), b), b);
    Block(a, b)
  }

  /** The decryption round undoes the encryption round with the same index. */
  lemma InvRoundUndoesRound(S: seq<Word>, i: nat, x: Block)
    requires |S| == EXPANDED_KEY_SIZE && 1 <= i <= NUM_ROUNDS
    ensures InvRound(S, i, Round(S, i, x)) == x
  {
    var a := Add(RotateLeft(Xor(x.a, x.b), x.b), S[2 * i]);
    var b := Add(RotateLeft(Xor(x.b, a), a), S[2 * i + 1]);
    SubUndoesAdd(RotateLeft(Xor(x.b, a), a), S[2 * i + 1]);
    RotateRightUndoesLeft(Xor(x.b, a), a);
    XorTwice(x.b, a);
    SubUndoesAdd(RotateLeft(Xor(x.a, x.b), x.b), S[2 * i]);
    RotateRightUndoesLeft(Xor(x.a, x.b), x.b);
    XorTwice(x.a, x.b);
  }

  /** The encryption round undoes the decryption round with the same index,
      so each round is a bijection on blocks. */
  lemma RoundUndoesInvRound(S: seq<Word>, i: nat, y: Block)
    requires |S| == EXPANDED_KEY_SIZE && 1 <= i <= NUM_ROUNDS
    ensures Round(S, i, InvRound(S, i, y)) == y
  {
    var b := Xor(RotateRight(Sub(y.b, S[2 * i + 1]), y.a), y.a);
    var a := Xor(RotateRight(Sub(y.a, S[2 * i]), b), b);
    XorTwice(RotateRight(Sub(y.a, S[2 * i]), b), b);
    RotateLeftUndoesRight(Sub(y.a, S[2 * i]), b);
    AddUndoesSub(y.a, S[2 * i]);
    XorTwice(RotateRight(Sub(y.b, S[2 * i + 1]), y.a), y.a);
    RotateLeftUndoesRight(Sub(y.b, S[2 * i + 1]), y.a);
    AddUndoesSub(y.b, S[2 * i + 1]);
  }

  /** Rounds `1 .. n` of encryption, in increasing order. */
  function EncryptRounds(S: seq<Word>, x: Block, n: nat): Block
    requires |S| == EXPANDED_KEY_SIZE && n <= NUM_ROUNDS
  {
    if n == 0 then x else Round(S, n, EncryptRounds(S, x, n - 1))
  }

  /** Rounds `n .. 1` of decryption, in decreasing order. */
  function DecryptRounds(S: seq<Word>, y: Block, n: nat): Block
    requires |S| == EXPANDED_KEY_SIZE && n <= NUM_ROUNDS
    decreases n
  {
    if n == 0 then y else DecryptRounds(S, InvRound(S, n, y), n - 1)
  }

  lemma {:induction false} DecryptRoundsUndoEncryptRounds(S: seq<Word>, x: Block, n: nat)
    requires |S| == EXPANDED_KEY_SIZE && n <= NUM_ROUNDS
    ensures DecryptRounds(S, EncryptRounds(S, x, n), n) == x
  {
    if n > 0 {
      InvRoundUndoesRound(S, n, EncryptRounds(S, x, n - 1));
      DecryptRoundsUndoEncryptRounds(S, x, n - 1);
    }
  }

  lemma {:induction false} EncryptRoundsUndoDecryptRounds(S: seq<Word>, y: Block, n: nat)
    requires |S| == EXPANDED_KEY_SIZE && n <= NUM_ROUNDS
    ensures EncryptRounds(S, DecryptRounds(S, y, n), n) == y
    decreases n
  {
    if n > 0 {
      EncryptRoundsUndoDecryptRounds(S, InvRound(S, n, y), n - 1);
      RoundUndoesInvRound(S, n, y);
    }
  }

  /** Encryption of one block under table `S` (section 6 of RFC 2040). */
  function EncryptBlock(S: seq<Word>, p: Block): Block
    requires |S| == EXPANDED_KEY_SIZE
  {
    EncryptRounds(S, Block(Add(p.a, S[0]), Add(p.b, S[1])), NUM_ROUNDS)
  }

  /** Decryption of one block under table `S`: the inverse of `EncryptBlock`,
      which undoes the rounds from last to first and then the whitening. */
  function DecryptBlock(S: seq<Word>, c: Block): Block
    requires |S| == EXPANDED_KEY_SIZE
  {
    var y := DecryptRounds(S, c, NUM_ROUNDS);
    Block(Sub(y.a, S[0]), Sub(y.b, S[1]))
  }

  /** Decryption inverts encryption for every table, not only for tables
      produced by the key schedule. */
  lemma DecryptUndoesEncrypt(S: seq<Word>, p: Block)
    requires |S| == EXPANDED_KEY_SIZE
    ensures DecryptBlock(S, EncryptBlock(S, p)) == p
  {
    DecryptRoundsUndoEncryptRounds(S, Block(Add(p.a, S[0]), Add(p.b, S[1])), NUM_ROUNDS);
    SubUndoesAdd(p.a, S[0]);
    SubUndoesAdd(p.b, S[1]);
  }

  /** Encryption inverts decryption: under a fixed table the cipher is a
      permutation of blocks. */
  lemma EncryptUndoesDecrypt(S: seq<Word>, c: Block)
    requires |S| == EXPANDED_KEY_SIZE
    ensures EncryptBlock(S, DecryptBlock(S, c)) == c
  {
    var y := DecryptRounds(S, c, NUM_ROUNDS);
    AddUndoesSub(y.a, S[0]);
    AddUndoesSub(y.b, S[1]);
    EncryptRoundsUndoDecryptRounds(S, c, NUM_ROUNDS);
  }

  // ---------------------------------------------------------------------
  // The Java methods
  // ---------------------------------------------------------------------

  /** `encrypt(plaintext, ciphertext)` (lines 60-74) on the values of the two
      arrays, computing with Java's shift-or rotation.  Only words 0 and 1 of
      the input are read; the result is the output array with words 0 and 1
      replaced and every other word kept. */
  method Encrypt(S: seq<Word>, plaintext: seq<Word>, ciphertext: seq<Word>) returns (out: seq<Word>)
    requires |S| == EXPANDED_KEY_SIZE && |plaintext| >= 2 && |ciphertext| >= 2
    ensures |out| == |ciphertext| && out[2..] == ciphertext[2..]
    ensures Block(out[0], out[1]) == EncryptBlock(S, Block(plaintext[0], plaintext[1]))
  {
    var tempA := Add(plaintext[0], S[0]);
    var tempB := Add(plaintext[1], S[1]);
    ghost var whitened := Block(tempA, tempB);
    var i := 1;
    while i <= NUM_ROUNDS
      invariant 1 <= i <= NUM_ROUNDS + 1
      invariant Block(tempA, tempB) == EncryptRounds(S, whitened, i - 1)
    {
      assert EncryptRounds(S, whitened, i) == Round(S, i, Block(tempA, tempB));
      JavaRotateLeftRotates(Xor(tempA, tempB), tempB);
      tempA := Add(JavaRotateLeft(Xor(tempA, tempB), tempB), S[2 * i]);
      JavaRotateLeftRotates(Xor(tempB, tempA), tempA);
      tempB := Add(JavaRotateLeft(Xor(tempB, tempA), tempA), S[2 * i + 1]);
      i := i + 1;
    }
    out := ciphertext[0 := tempA][1 := tempB];
  }

  /** `decrypt(ciphertext, plaintext)` (lines 77-92) on the values of the two
      arrays, computing with Java's shift-or rotation.  Only words 0 and 1 of
      the input are read; the result is the output array with words 0 and 1
      replaced and every other word kept. */
  method Decrypt(S: seq<Word>, ciphertext: seq<Word>, plaintext: seq<Word>) returns (out: seq<Word>)
    requires |S| == EXPANDED_KEY_SIZE && |ciphertext| >= 2 && |plaintext| >= 2
    ensures |out| == |plaintext| && out[2..] == plaintext[2..]
    ensures Block(out[0], out[1]) == DecryptBlock(S, Block(ciphertext[0], ciphertext[1]))
  {
    var tempB := ciphertext[1];
    var tempA := ciphertext[0];
    ghost var c := Block(tempA, tempB);
    var i := NUM_ROUNDS;
    while i > 0
      invariant 0 <= i <= NUM_ROUNDS
      invariant DecryptRounds(S, Block(tempA, tempB), i) == DecryptRounds(S, c, NUM_ROUNDS)
    {
      JavaRotateRightRotates(Sub(tempB, S[2 * i + 1]), tempA);
      tempB := Xor(JavaRotateRight(Sub(tempB, S[2 * i + 1]), tempA), tempA);
      JavaRotateRightRotates(Sub(tempA, S[2 * i]), tempB);
      tempA := Xor(JavaRotateRight(Sub(tempA, S[2 * i]), tempB), tempB);
      i := i - 1;
    }
    out := plaintext[0 := Sub(tempA, S[0])][1 := Sub(tempB, S[1])];
  }

  /** Encrypting and then decrypting through the Java methods gives back the
      two plaintext words, for every table and every pair of words. */
  method EncryptThenDecrypt(S: seq<Word>, plaintext: seq<Word>, buffer: seq<Word>) returns (recovered: seq<Word>)
    requires |S| == EXPANDED_KEY_SIZE && |plaintext| >= 2 && |buffer| >= 2
    ensures |recovered| == |plaintext| && recovered[0] == plaintext[0] && recovered[1] == plaintext[1]
  {
    var ciphertext := Encrypt(S, plaintext, buffer);
    recovered := Decrypt(S, ciphertext, plaintext);
    DecryptUndoesEncrypt(S, Block(plaintext[0], plaintext[1]));
  }

  /** `encrypt` on the Java arrays themselves.  The input may be the output
      array: both input words are loaded before anything is written. */
  method EncryptArrays(S: seq<Word>, plaintext: array<Word>, ciphertext: array<Word>)
    requires |S| == EXPANDED_KEY_SIZE && plaintext.Length >= 2 && ciphertext.Length >= 2
    modifies ciphertext
    ensures Block(ciphertext[0], ciphertext[1]) == EncryptBlock(S, Block(old(plaintext[0]), old(plaintext[1])))
    ensures ciphertext[2..] == old(ciphertext[2..])
  {
    var out := Encrypt(S, plaintext[..], ciphertext[..]);
    ciphertext[0] := out[0];
    ciphertext[1] := out[1];
  }

  /** `decrypt` on the Java arrays themselves; the input may be the output
      array. */
  method DecryptArrays(S: seq<Word>, ciphertext: array<Word>, plaintext: array<Word>)
    requires |S| == EXPANDED_KEY_SIZE && ciphertext.Length >= 2 && plaintext.Length >= 2
    modifies plaintext
    ensures Block(plaintext[0], plaintext[1]) == DecryptBlock(S, Block(old(ciphertext[0]), old(ciphertext[1])))
    ensures plaintext[2..] == old(plaintext[2..])
  {
    var out := Decrypt(S, ciphertext[..], plaintext[..]);
    plaintext[0] := out[0];
    plaintext[1] := out[1];
  }
}
