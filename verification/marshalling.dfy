/** Conversion between byte strings and cipher words (`stringToBlocks` and
    `blocksToString`, RC5.java lines 94-129).

    Bytes are packed four to a word, big-endian: byte `4i` is the most
    significant byte of word `i`.  A final partial word is padded with zero
    bytes in its low-order positions.  Unpacking writes every word out
    big-endian and then strips every trailing zero byte, whichever word it
    came from.  The text encoding on either side (UTF-8) is not modelled:
    both directions work on the encoded bytes.
 */
module Marshalling {
  import opened Words

  /** Big-endian byte `j` of `w`: byte 0 is the most significant.  This is
      the cast `(byte) (w >>> (24 - 8 * j))` of line 121, with the shift
      distance `24 - 8 * j` written out for each `j`. */
  function ByteOf(w: Word, j: nat): Byte
    requires j < 4
  {
    if j == 0 then ((w >> 24) & 0xFF) as Byte
    else if j == 1 then ((w >> 16) & 0xFF) as Byte
    else if j == 2 then ((w >> 8) & 0xFF) as Byte
    else (w & 0xFF) as Byte
  }

  /** The word whose big-endian bytes are `b0 b1 b2 b3`. */
  function BigEndianWord(b0: Byte, b1: Byte, b2: Byte, b3: Byte): Word
  {
    ((b0 as Word) << 24) | ((b1 as Word) << 16) | ((b2 as Word) << 8) | (b3 as Word)
  }

  /** Splitting a word built from four bytes gives those bytes back. */
  lemma BytesOfBigEndianWord(b0: Byte, b1: Byte, b2: Byte, b3: Byte)
    ensures ByteOf(BigEndianWord(b0, b1, b2, b3), 0) == b0
    ensures ByteOf(BigEndianWord(b0, b1, b2, b3), 1) == b1
    ensures ByteOf(BigEndianWord(b0, b1, b2, b3), 2) == b2
    ensures ByteOf(BigEndianWord(b0, b1, b2, b3), 3) == b3
  {
  }

  /** Building a word from its four bytes gives the word back, so a word is
      determined by its bytes. */
  lemma BigEndianWordOfBytes(w: Word)
    ensures BigEndianWord(ByteOf(w, 0), ByteOf(w, 1), ByteOf(w, 2), ByteOf(w, 3)) == w
  {
  }

  lemma WordsWithEqualBytes(v: Word, w: Word)
    requires forall j :: 0 <= j < 4 ==> ByteOf(v, j) == ByteOf(w, j)
    ensures v == w
  {
    BigEndianWordOfBytes(v);
    BigEndianWordOfBytes(w);
  }

  // ---------------------------------------------------------------------
  // stringToBlocks
  // ---------------------------------------------------------------------

  /** Byte `k` of `b`, or the zero byte that pads `b` beyond its end. */
  function PaddedByte(b: seq<Byte>, k: nat): Byte
  {
    if k < |b| then b[k] else 0
  }

  /** Number of words that hold `n` bytes: `(n + 3) / 4` (line 96). */
  function BlockCount(n: nat): nat
  {
    (n + 3) / 4
  }

  /** Word `i` of the packed form of `b`: bytes `4i .. 4i+3`, zero-padded. */
  function BlockWord(b: seq<Byte>, i: nat): Word
  {
    BigEndianWord(PaddedByte(b, 4 * i), PaddedByte(b, 4 * i + 1), PaddedByte(b, 4 * i + 2), PaddedByte(b, 4 * i + 3))
  }

  /** The packed form of `b`: one word per four bytes, rounded up. */
  function StringToBlocks(b: seq<Byte>): seq<Word>
  {
    seq(BlockCount(|b|), i requires 0 <= i => BlockWord(b, i))
  }

  /** The packed form has the fewest words that hold every byte, and byte
      `j` of word `i` is byte `4i + j` of the input, or zero past its end. */
  lemma StringToBlocksLayout(b: seq<Byte>)
    ensures var r := StringToBlocks(b);
      && |b| <= 4 * |r| < |b| + 4
      && forall i, j :: 0 <= i < |r| && 0 <= j < 4 ==>
           ByteOf(r[i], j) == if 4 * i + j < |b| then b[4 * i + j] else 0
  {
    var r := StringToBlocks(b);
    forall i, j | 0 <= i < |r| && 0 <= j < 4
      ensures ByteOf(r[i], j) == if 4 * i + j < |b| then b[4 * i + j] else 0
    {
      BytesOfBigEndianWord(PaddedByte(b, 4 * i), PaddedByte(b, 4 * i + 1), PaddedByte(b, 4 * i + 2), PaddedByte(b, 4 * i + 3));
    }
  }

  /** One step of the inner loop of line 102: `(block << 8) | (byte & 0xFF)`. */
  function AppendByte(w: Word, x: Byte): Word
  {
    (w << 8) | (x as Word)
  }

  /** The value of `block` after the inner loop has read `m` bytes starting
      at `lo`. */
  function Accumulate(b: seq<Byte>, lo: nat, m: nat): Word
    requires lo + m <= |b|
  {
    if m == 0 then 0 else AppendByte(Accumulate(b, lo, m - 1), b[lo + m - 1])
  }

  /** Number of bytes the inner loop reads for word `i` of an `n`-byte
      input: four, or what is left for the last word. */
  function BytesInBlock(n: nat, i: nat): nat
    requires 4 * i < n
  {
    if 4 * i + 4 <= n then 4 else n - 4 * i
  }

  /** The padding shift of line 109, `<<= 8 * (4 - r)` for the `r` bytes of
      a partial last word, written out for each `r`. */
  function PadShift(w: Word, r: nat): Word
    requires 1 <= r <= 3
  {
    if r == 1 then w << 24 else if r == 2 then w << 16 else w << 8
  }

  lemma AppendFourBytes(x0: Byte, x1: Byte, x2: Byte, x3: Byte)
    ensures AppendByte(AppendByte(AppendByte(AppendByte(0, x0), x1), x2), x3) == BigEndianWord(x0, x1, x2, x3)
  {
  }

  lemma AppendThreeBytes(x0: Byte, x1: Byte, x2: Byte)
    ensures PadShift(AppendByte(AppendByte(AppendByte(0, x0), x1), x2), 3) == BigEndianWord(x0, x1, x2, 0)
  {
  }

  lemma AppendTwoBytes(x0: Byte, x1: Byte)
    ensures PadShift(AppendByte(AppendByte(0, x0), x1), 2) == BigEndianWord(x0, x1, 0, 0)
  {
  }

  lemma AppendOneByte(x0: Byte)
    ensures PadShift(AppendByte(0, x0), 1) == BigEndianWord(x0, 0, 0, 0)
  {
  }

  /** What the Java loops leave in word `i` (after the padding shift, for a
      partial last word) is word `i` of the packed form. */
  lemma AccumulatedBlock(b: seq<Byte>, i: nat)
    requires 4 * i < |b|
    ensures var m := BytesInBlock(|b|, i);
      (if m == 4 then Accumulate(b, 4 * i, 4) else PadShift(Accumulate(b, 4 * i, m), m)) == BlockWord(b, i)
  {
    var lo := 4 * i;
    var m := BytesInBlock(|b|, i);
    var a1 := AppendByte(0, b[lo]);
    assert Accumulate(b, lo, 1) == a1;
    if m == 1 {
      AppendOneByte(b[lo]);
    } else {
      var a2 := AppendByte(a1, b[lo + 1]);
      assert Accumulate(b, lo, 2) == a2;
      if m == 2 {
        AppendTwoBytes(b[lo], b[lo + 1]);
      } else {
        var a3 := AppendByte(a2, b[lo + 2]);
        assert Accumulate(b, lo, 3) == a3;
        if m == 3 {
          AppendThreeBytes(b[lo], b[lo + 1], b[lo + 2]);
        } else {
          assert Accumulate(b, lo, 4) == AppendByte(a3, b[lo + 3]);
          AppendFourBytes(b[lo], b[lo + 1], b[lo + 2], b[lo + 3]);
        }
      }
    }
  }

  /** `stringToBlocks` (lines 94-113) on the encoded bytes: the inner loop
      shifts each byte in at the low end, and a partial last word is then
      shifted left so that its padding zeros take the low-order bytes. */
  method PackBlocks(bytes: seq<Byte>) returns (blocks: seq<Word>)
    ensures blocks == StringToBlocks(bytes)
  {
    var numBlocks := (|bytes| + 3) / 4;
    blocks := seq(numBlocks, _ => 0);
    var i := 0;
    while i < numBlocks
      invariant 0 <= i <= numBlocks && |blocks| == numBlocks
      invariant forall k :: 0 <= k < i ==> blocks[k] == Accumulate(bytes, 4 * k, BytesInBlock(|bytes|, k))
    {
      var block: Word := 0;
      var j := 0;
      while j < 4 && i * 4 + j < |bytes|
        invariant 0 <= j <= 4 && i * 4 + j <= |bytes|
        invariant block == Accumulate(bytes, 4 * i, j)
      {
        block := AppendByte(block, bytes[i * 4 + j]);
        j := j + 1;
      }
      blocks := blocks[i := block];
      i := i + 1;
    }
    if |bytes| % 4 != 0 {
      blocks := blocks[numBlocks - 1 := PadShift(blocks[numBlocks - 1], |bytes| % 4)];
    }
    forall k | 0 <= k < numBlocks
      ensures blocks[k] == StringToBlocks(bytes)[k]
    {
      AccumulatedBlock(bytes, k);
    }
  }

  // ---------------------------------------------------------------------
  // blocksToString
  // ---------------------------------------------------------------------

  /** Every word written out as four big-endian bytes (lines 116-123). */
  function Serialize(blocks: seq<Word>): seq<Byte>
  {
    seq(4 * |blocks|, k requires 0 <= k < 4 * |blocks| => ByteOf(blocks[k / 4], k % 4))
  }

  /** `b` without its trailing zero bytes (line 127). */
  function TrimZeros(b: seq<Byte>): (r: seq<Byte>)
    ensures |r| <= |b| && r == b[..|r|]
    ensures |r| == 0 || r[|r| - 1] != 0
    ensures forall k :: |r| <= k < |b| ==> b[k] == 0
  {
    if |b| > 0 && b[|b| - 1] == 0 then TrimZeros(b[..|b| - 1]) else b
  }

  /** The three properties of `TrimZeros` determine its result: any prefix
      that is empty or ends in a non-zero byte, and is followed only by zero
      bytes, is the trimmed sequence. */
  lemma TrimZerosUnique(b: seq<Byte>, p: seq<Byte>)
    requires |p| <= |b| && p == b[..|p|]
    requires |p| == 0 || p[|p| - 1] != 0
    requires forall k :: |p| <= k < |b| ==> b[k] == 0
    ensures TrimZeros(b) == p
  {
  }

  /** Zero bytes appended to `x` do not survive trimming. */
  lemma TrimZerosIgnoresAppendedZeros(x: seq<Byte>, s: seq<Byte>)
    requires |x| <= |s| && s[..|x|] == x
    requires forall k :: |x| <= k < |s| ==> s[k] == 0
    ensures TrimZeros(s) == TrimZeros(x)
  {
    var p := TrimZeros(x);
    assert s[..|p|] == x[..|p|];
    TrimZerosUnique(s, p);
  }

  /** The bytes of `blocksToString(blocks)` before decoding. */
  function BlocksToString(blocks: seq<Word>): seq<Byte>
  {
    TrimZeros(Serialize(blocks))
  }

  /** `blocksToString` (lines 115-129) up to the decoding of the bytes: the
      nested loops write each word big-endian, and the last loop moves the
      end index back over every trailing zero byte. */
  method UnpackBlocks(blocks: seq<Word>) returns (bytes: seq<Byte>)
    ensures bytes == BlocksToString(blocks)
  {
    var numBytes := |blocks| * 4;
    var all: seq<Byte> := seq(numBytes, _ => 0);
    var i := 0;
    while i < |blocks|
      invariant 0 <= i <= |blocks| && |all| == numBytes
      invariant forall k :: 0 <= k < 4 * i ==> all[k] == Serialize(blocks)[k]
    {
      var j := 0;
      while j < 4
        invariant 0 <= j <= 4 && |all| == numBytes
        invariant forall k :: 0 <= k < 4 * i + j ==> all[k] == Serialize(blocks)[k]
      {
        all := all[i * 4 + j := ByteOf(blocks[i], j)];
        j := j + 1;
      }
      i := i + 1;
    }
    assert all == Serialize(blocks);
    var end := numBytes - 1;
    while end >= 0 && all[end] == 0
      invariant -1 <= end < numBytes
      invariant forall k :: end < k < numBytes ==> all[k] == 0
    {
      end := end - 1;
    }
    bytes := all[..end + 1];
    TrimZerosUnique(all, bytes);
  }

  // ---------------------------------------------------------------------
  // Round trips
  // ---------------------------------------------------------------------

  /** Writing out the packed form of `b` gives `b` followed by the zero
      bytes that pad it to a whole number of words. */
  lemma SerializePacked(b: seq<Byte>)
    ensures var s := Serialize(StringToBlocks(b));
      && |b| <= |s| < |b| + 4 && s[..|b|] == b
      && forall k :: |b| <= k < |s| ==> s[k] == 0
  {
    var r := StringToBlocks(b);
    var s := Serialize(r);
    StringToBlocksLayout(b);
    forall k | 0 <= k < |s|
      ensures s[k] == if k < |b| then b[k] else 0
    {
      assert s[k] == ByteOf(r[k / 4], k % 4);
      assert 4 * (k / 4) + k % 4 == k;
    }
  }

  /** `blocksToString` inverts `stringToBlocks` exactly on the byte strings
      that are empty or end in a non-zero byte; for any other string the
      trailing zero bytes are lost. */
  lemma BlocksToStringUndoesStringToBlocks(b: seq<Byte>)
    ensures BlocksToString(StringToBlocks(b)) == b <==> |b| == 0 || b[|b| - 1] != 0
  {
    var s := Serialize(StringToBlocks(b));
    SerializePacked(b);
    if |b| == 0 || b[|b| - 1] != 0 {
      TrimZerosUnique(s, b);
    }
  }

  /** The output of `blocksToString` never ends in a zero byte. */
  lemma BlocksToStringEndsNonZero(blocks: seq<Word>)
    ensures var r := BlocksToString(blocks); |r| == 0 || r[|r| - 1] != 0
  {
  }

  /** Byte `k` of the written-out words is byte `k % 4` of word `k / 4`. */
  lemma SerializedByte(blocks: seq<Word>, i: nat, j: nat)
    requires i < |blocks| && j < 4
    ensures Serialize(blocks)[4 * i + j] == ByteOf(blocks[i], j)
  {
    var k := 4 * i + j;
    assert k / 4 == i && k % 4 == j;
  }

  /** Stripping reaches into the last word exactly when that word is zero. */
  lemma StrippedLength(blocks: seq<Word>)
    requires |blocks| > 0
    ensures |BlocksToString(blocks)| > 4 * |blocks| - 4 <==> blocks[|blocks| - 1] != 0
  {
    var n := |blocks|;
    var s := Serialize(blocks);
    var t := BlocksToString(blocks);
    if blocks[n - 1] == 0 {
      forall k | 4 * n - 4 <= k < 4 * n
        ensures s[k] == 0
      {
        SerializedByte(blocks, n - 1, k - (4 * n - 4));
      }
    } else if |t| <= 4 * n - 4 {
      forall j | 0 <= j < 4
        ensures ByteOf(blocks[n - 1], j) == ByteOf(0, j)
      {
        SerializedByte(blocks, n - 1, j);
      }
      WordsWithEqualBytes(blocks[n - 1], 0);
    }
  }

  /** Packing the stripped bytes again gives back every word, provided the
      stripping stayed inside the last word. */
  lemma RepackStripped(blocks: seq<Word>)
    requires |BlocksToString(blocks)| > 4 * |blocks| - 4
    ensures StringToBlocks(BlocksToString(blocks)) == blocks
  {
    var s := Serialize(blocks);
    var t := BlocksToString(blocks);
    var r := StringToBlocks(t);
    StringToBlocksLayout(t);
    assert |r| == |blocks|;
    forall i | 0 <= i < |blocks|
      ensures r[i] == blocks[i]
    {
      forall j | 0 <= j < 4
        ensures ByteOf(r[i], j) == ByteOf(blocks[i], j)
      {
        SerializedByte(blocks, i, j);
      }
      WordsWithEqualBytes(r[i], blocks[i]);
    }
  }

  /** `stringToBlocks` inverts `blocksToString` exactly on the word
      sequences that are empty or end in a non-zero word; when the last word
      is zero, its bytes are all stripped and the round trip loses it. */
  lemma StringToBlocksUndoesBlocksToString(blocks: seq<Word>)
    ensures StringToBlocks(BlocksToString(blocks)) == blocks <==> |blocks| == 0 || blocks[|blocks| - 1] != 0
  {
    if |blocks| > 0 {
      StrippedLength(blocks);
      if blocks[|blocks| - 1] != 0 {
        RepackStripped(blocks);
      } else {
        StringToBlocksLayout(BlocksToString(blocks));
      }
    }
  }
}
