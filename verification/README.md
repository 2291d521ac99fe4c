# RC5-32/12/16 in Dafny

A model of the class `RC5` in `src/main/java/edu/ifmg/camoleze/RC5.java`. The class implements RC5 with 32-bit words, 12 rounds and a 16-byte key, as RFC 2040 describes it. It also has a small marshaller between byte strings and 32-bit blocks.

The modules follow the structure of the class:

| module | file | models |
|---|---|---|
| `Words` | `words.dfy` | the constants (lines 8-14); Java `int` as `bv32` and masked `byte` as `bv8`; the wrapping `+ - ^ \|` |
| `Rotation` | `rotation.dfy` | `rotateLeft`, `rotateRight` |
| `KeySchedule` | `key_schedule.dfy` | `setupKey`: key packing, table initialisation, key mixing |
| `BlockCipher` | `block_cipher.dfy` | `encrypt`, `decrypt` |
| `Marshalling` | `marshalling.dfy` | `stringToBlocks`, `blocksToString`, on bytes |

Each Java method appears twice:

- as a pure specification (`KeyWords`, `InitialTable`, `MixSteps`, `EncryptBlock`, `StringToBlocks`, `BlocksToString`);
- as a method that follows the Java loops statement by statement, proved equal to the specification.

The object's two arrays `expandedKey` and `keyWords` are passed as values. `SetupKey` takes their prior contents as parameters, so its contract can say that they do not matter.

A Java shift count is an `int`, of which Java uses only the low five bits. The model keeps the count as a full `bv32`, so negative counts and counts of 32 or more are covered. The cipher's specification is stated with a staged rotation, `Rotation.RotateLeft`, whose five stages rotate by 1, 2, 4, 8 and 16 according to the bits of the count. The Java methods compute with the literal shift-or expression of lines 22 and 27, and `Rotation.JavaRotateLeftRotates` proves the two equal for every word and every count.

Two points where the code differs from a plain reading of its comments; the model follows the code:

- `stringToBlocks` fills the last, partial word and then shifts it left (line 109). Its padding zeros therefore sit in the low-order bytes, after the data bytes in big-endian order.
- The comment at line 125 speaks of removing zeros from the last block. The loop at line 127 removes every trailing zero byte, across block boundaries. An all-zero last word is dropped entirely, and so is a zero byte that ends the original text.

## Model

| member | source | states |
|---|---|---|
| Rotation.JavaRotateLeftRotates | src/main/java/edu/ifmg/camoleze/RC5.java:20-23 | the Java shift-or is a true left rotation by the count mod 32, for every count, negative ones included |
| Rotation.JavaRotateRightRotates | src/main/java/edu/ifmg/camoleze/RC5.java:25-28 | the Java shift-or is a true right rotation by the count mod 32, for every count |
| Rotation.JavaRotationsAreInverse | src/main/java/edu/ifmg/camoleze/RC5.java:20-28 | rotateRight undoes rotateLeft by the same count, and the other way round, for every word and count |
| Rotation.RotateByMultipleOfWordSize | src/main/java/edu/ifmg/camoleze/RC5.java:20-28 | a count that is a multiple of 32 leaves the word unchanged in both directions |
| KeySchedule.ShiftInFourBytes | src/main/java/edu/ifmg/camoleze/RC5.java:37 | four shift-by-8-and-add steps give the little-endian word of the four bytes, whatever the word held before |
| KeySchedule.PackOneWord | src/main/java/edu/ifmg/camoleze/RC5.java:36-38 | the four loop iterations of key word j set it to the little-endian word of bytes 4j..4j+3 and change no other word |
| KeySchedule.PackingIgnoresPriorContents | src/main/java/edu/ifmg/camoleze/RC5.java:36-38 | the packed key words are the little-endian words of the key, whatever the array held before |
| KeySchedule.PackKeyWords | src/main/java/edu/ifmg/camoleze/RC5.java:36-38 | the packing loop yields the little-endian key words from any prior array contents |
| KeySchedule.ProgressionClosedForm | src/main/java/edu/ifmg/camoleze/RC5.java:41-44 | word i of the running sum P, P+Q, … is P + i·Q modulo 2^32 |
| KeySchedule.InitialTable | src/main/java/edu/ifmg/camoleze/RC5.java:41-44 | the table before mixing has 26 slots, and slot i holds P + i·Q modulo 2^32 |
| KeySchedule.InitTable | src/main/java/edu/ifmg/camoleze/RC5.java:41-44 | after initialisation slot i holds P + i·Q modulo 2^32, whatever the table held before |
| KeySchedule.MixStepWritesOneSlotEach | src/main/java/edu/ifmg/camoleze/RC5.java:52-55 | iteration k writes the new A to slot k mod 26 and the new B to key word k mod 4, and changes nothing else |
| KeySchedule.MixKey | src/main/java/edu/ifmg/camoleze/RC5.java:47-56 | the mixing loop, with indexS = k mod 26 and indexL = k mod 4 as invariant, computes 78 mixing iterations |
| KeySchedule.EachSlotWrittenThreeTimes | src/main/java/edu/ifmg/camoleze/RC5.java:51-54 | each table slot s is written by exactly the three iterations s, s+26 and s+52 |
| KeySchedule.SlotKeepsLastWrite | src/main/java/edu/ifmg/camoleze/RC5.java:51-56 | after its last write in the third pass, a slot keeps that value to the end of the loop |
| KeySchedule.ExpandedSlotIsThirdPassValue | src/main/java/edu/ifmg/camoleze/RC5.java:47-56 | slot s of the final table is the A value computed by iteration s + 52 |
| KeySchedule.ExpandKeyReadsSixteenBytes | src/main/java/edu/ifmg/camoleze/RC5.java:31-57 | two keys that agree on their first 16 bytes give the same table, so bytes past 16 are ignored |
| KeySchedule.SetupKey | src/main/java/edu/ifmg/camoleze/RC5.java:31-57 | the table is the RFC 2040 expansion of the key's first 16 bytes, whatever the object's arrays held before |
| BlockCipher.InvRoundUndoesRound | src/main/java/edu/ifmg/camoleze/RC5.java:68-69 | the decrypt round with index i inverts the encrypt round with index i, for every table and block |
| BlockCipher.RoundUndoesInvRound | src/main/java/edu/ifmg/camoleze/RC5.java:85-86 | the encrypt round with index i inverts the decrypt round with index i |
| BlockCipher.DecryptRoundsUndoEncryptRounds | src/main/java/edu/ifmg/camoleze/RC5.java:66-87 | rounds n down to 1 of decryption undo rounds 1 up to n of encryption |
| BlockCipher.EncryptRoundsUndoDecryptRounds | src/main/java/edu/ifmg/camoleze/RC5.java:66-87 | rounds 1 up to n of encryption undo rounds n down to 1 of decryption |
| BlockCipher.DecryptUndoesEncrypt | src/main/java/edu/ifmg/camoleze/RC5.java:60-92 | decrypting an encrypted block gives it back, for every 26-word table |
| BlockCipher.EncryptUndoesDecrypt | src/main/java/edu/ifmg/camoleze/RC5.java:60-92 | encrypting a decrypted block gives it back, so each table makes the cipher a permutation of blocks |
| BlockCipher.Encrypt | src/main/java/edu/ifmg/camoleze/RC5.java:60-74 | encrypt reads words 0 and 1, writes their RC5 encryption to words 0 and 1 of the output and keeps every other output word |
| BlockCipher.Decrypt | src/main/java/edu/ifmg/camoleze/RC5.java:77-92 | decrypt reads words 0 and 1, writes their RC5 decryption to words 0 and 1 of the output and keeps every other output word |
| BlockCipher.EncryptThenDecrypt | src/main/java/edu/ifmg/camoleze/RC5.java:60-92 | running encrypt and then decrypt gives back the two plaintext words |
| BlockCipher.EncryptArrays | src/main/java/edu/ifmg/camoleze/RC5.java:60-74 | encrypt on arrays is correct when input and output are the same array, and writes only cells 0 and 1 |
| BlockCipher.DecryptArrays | src/main/java/edu/ifmg/camoleze/RC5.java:77-92 | decrypt on arrays is correct when input and output are the same array, and writes only cells 0 and 1 |
| Marshalling.BytesOfBigEndianWord | src/main/java/edu/ifmg/camoleze/RC5.java:121 | splitting a word built from four big-endian bytes gives those bytes back |
| Marshalling.BigEndianWordOfBytes | src/main/java/edu/ifmg/camoleze/RC5.java:121 | building a word from its four big-endian bytes gives the word back |
| Marshalling.StringToBlocksLayout | src/main/java/edu/ifmg/camoleze/RC5.java:94-113 | stringToBlocks gives ⌈n/4⌉ words, and byte j of word i is byte 4i+j of the input, or 0 past its end |
| Marshalling.AccumulatedBlock | src/main/java/edu/ifmg/camoleze/RC5.java:99-110 | the inner loop followed by the padding shift puts the block's bytes in big-endian order with zero padding in the low bytes |
| Marshalling.PackBlocks | src/main/java/edu/ifmg/camoleze/RC5.java:94-113 | the Java loops of stringToBlocks compute the packed form |
| Marshalling.TrimZeros | src/main/java/edu/ifmg/camoleze/RC5.java:126-127 | the result is a prefix of the input that is empty or ends in a non-zero byte, and only zero bytes were removed |
| Marshalling.TrimZerosUnique | src/main/java/edu/ifmg/camoleze/RC5.java:126-127 | those three properties determine the trimmed sequence |
| Marshalling.UnpackBlocks | src/main/java/edu/ifmg/camoleze/RC5.java:115-129 | the Java loops of blocksToString write every word big-endian and strip every trailing zero byte |
| Marshalling.SerializePacked | src/main/java/edu/ifmg/camoleze/RC5.java:94-123 | writing out the packed form of b gives b followed by fewer than four zero bytes |
| Marshalling.BlocksToStringUndoesStringToBlocks | src/main/java/edu/ifmg/camoleze/RC5.java:94-129 | blocksToString(stringToBlocks(b)) == b exactly when b is empty or ends in a non-zero byte |
| Marshalling.StringToBlocksUndoesBlocksToString | src/main/java/edu/ifmg/camoleze/RC5.java:94-129 | stringToBlocks(blocksToString(w)) == w exactly when w is empty or ends in a non-zero word |

## Left out

- `main` (lines 149-200) is not modelled: argument checks, console output, `System.exit` and the demo flow. Its crash cases appear only as preconditions. These are a key shorter than 16 bytes (`|key| >= KEY_BYTES`) and arrays shorter than two words, which a plaintext of at most 4 bytes produces.
- UTF-8 encoding and decoding (lines 95, 128, 170) are library calls. The marshaller is modelled on the raw bytes: `StringToBlocks` takes the encoded bytes, and `BlocksToString` returns the bytes that would be decoded.
- `convertCiphertextToBytes` and `bytesToHex` (lines 132-147) only format output and are not modelled.
- Cryptographic strength, avalanche and wrong-key decryption (lines 197-199) are statistical properties, not functional ones.
- Marshalling.PackBlocks: lengths are unbounded. The `int` overflow of `(bytes.length + 3) / 4` (line 96) for arrays near 2^31 bytes is not modelled.
- Marshalling.UnpackBlocks: the overflow of `blocks.length * 4` (line 116) for more than 2^29 blocks is not modelled.
- BlockCipher.EncryptArrays: stated on a table passed as a value. The object's `expandedKey` field is never written by `encrypt` or `decrypt`, so it is not modelled as state.
- BlockCipher.DecryptArrays: likewise stated on a table passed as a value.
