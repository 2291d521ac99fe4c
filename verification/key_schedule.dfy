/** The RC5 key schedule (`setupKey`, RC5.java lines 31-57), following the
    key expansion of section 5 of RFC 2040 for RC5-32/12/16.

    The pure functions below are the specification: `KeyWords` (section
    5.3 of RFC 2040), `InitialTable` (section 5.4) and `MixSteps` (section
    5.5).  The method `SetupKey` is the Java code with its three loops,
    proved to compute `ExpandKey`.  The object's two arrays `expandedKey`
    and `keyWords` are passed in and out as values; their prior contents are
    parameters, which lets the contract say that they do not matter.
 */
module KeySchedule {
  import opened Words
  import opened Rotation

  // ---------------------------------------------------------------------
  // Section 5.3 of RFC 2040: the key bytes as four little-endian words
  // ---------------------------------------------------------------------

  /** The word whose bytes, least significant first, are `b0 .. b3`. */
  function LittleEndianWord(b0: Byte, b1: Byte, b2: Byte, b3: Byte): Word
  {
    (b0 as Word) | ((b1 as Word) << 8) | ((b2 as Word) << 16) | ((b3 as Word) << 24)
  }

  /** Word `j` of the key: bytes `4j .. 4j+3`, least significant first. */
  function KeyWord(key: seq<Byte>, j: nat): Word
    requires |key| >= KEY_BYTES && j < KEY_WORDS
  {
    LittleEndianWord(key[4 * j], key[4 * j + 1], key[4 * j + 2], key[4 * j + 3])
  }

  /** The reference conversion of the key into `KEY_WORDS` words. */
  function KeyWords(key: seq<Byte>): (L: seq<Word>)
    requires |key| >= KEY_BYTES
  {
    [KeyWord(key, 0), KeyWord(key, 1), KeyWord(key, 2), KeyWord(key, 3)]
  }

  /** `(w << 8) + (b & 0xFF)`: a byte shifted in at the low end of a word. */
  function ShiftInByte(w: Word, b: Byte): Word
  {
    Add(w << 8, b as Word)
  }

  /** One iteration of the packing loop at line 37 for byte `i`. */
  function PackStep(L: seq<Word>, key: seq<Byte>, i: nat): (r: seq<Word>)
    requires |L| == KEY_WORDS && |key| >= KEY_BYTES && i < KEY_BYTES
    ensures |r| == KEY_WORDS
  {
    L[i / 4 := ShiftInByte(L[i / 4], key[i])]
  }

  /** The key words after the packing loop has processed bytes
      `KEY_BYTES - 1` down to `n`, starting from whatever `prior` held. */
  function PackDown(prior: seq<Word>, key: seq<Byte>, n: nat): (r: seq<Word>)
    requires |prior| == KEY_WORDS && |key| >= KEY_BYTES && n <= KEY_BYTES
    ensures |r| == KEY_WORDS
    decreases KEY_BYTES - n
  {
    if n == KEY_BYTES then prior else PackStep(PackDown(prior, key, n + 1), key, n)
  }

  /** Four shift-by-8-and-add steps push the old word out entirely; since
      each added byte is below 256 no addition carries. */
  lemma ShiftInFourBytes(w: Word, b0: Byte, b1: Byte, b2: Byte, b3: Byte)
    ensures ShiftInByte(ShiftInByte(ShiftInByte(ShiftInByte(w, b3), b2), b1), b0)
         == LittleEndianWord(b0, b1, b2, b3)
  {
  }

  /** Processing the four bytes of word `j` sets that word to `KeyWord(key, j)`
      and leaves the other words alone. */
  lemma PackOneWord(prior: seq<Word>, key: seq<Byte>, j: nat)
    requires |prior| == KEY_WORDS && |key| >= KEY_BYTES && j < KEY_WORDS
    ensures PackDown(prior, key, 4 * j) == PackDown(prior, key, 4 * j + 4)[j := KeyWord(key, j)]
  {
    var L4 := PackDown(prior, key, 4 * j + 4);
    var L3 := PackDown(prior, key, 4 * j + 3);
    var L2 := PackDown(prior, key, 4 * j + 2);
    var L1 := PackDown(prior, key, 4 * j + 1);
    var L0 := PackDown(prior, key, 4 * j);
    assert (4 * j + 3) / 4 == j && (4 * j + 2) / 4 == j && (4 * j + 1) / 4 == j && (4 * j) / 4 == j;
    var w3 := ShiftInByte(L4[j], key[4 * j + 3]);
    var w2 := ShiftInByte(w3, key[4 * j + 2]);
    var w1 := ShiftInByte(w2, key[4 * j + 1]);
    var w0 := ShiftInByte(w1, key[4 * j]);
    assert L3 == L4[j := w3];
    assert L2 == L4[j := w2];
    assert L1 == L4[j := w1];
    assert L0 == L4[j := w0];
    ShiftInFourBytes(L4[j], key[4 * j], key[4 * j + 1], key[4 * j + 2], key[4 * j + 3]);
  }

  /** The packing loop of lines 36-38 yields the little-endian key words,
      whatever the key-word array held before; bytes past the sixteenth are
      never read. */
  lemma PackingIgnoresPriorContents(prior: seq<Word>, key: seq<Byte>)
    requires |prior| == KEY_WORDS && |key| >= KEY_BYTES
    ensures PackDown(prior, key, 0) == KeyWords(key)
  {
    PackOneWord(prior, key, 3);
    PackOneWord(prior, key, 2);
    PackOneWord(prior, key, 1);
    PackOneWord(prior, key, 0);
  }

  // ---------------------------------------------------------------------
  // Section 5.4 of RFC 2040: the table initialised with P and Q
  // ---------------------------------------------------------------------

  /** `P + i·Q` modulo 2^32, the value section 5.4 puts in slot `i`. */
  function ProgressionWord(i: Word): Word
  {
    Add(P, i * Q)
  }

  lemma ProgressionSucc(h: Word, i: Word)
    requires i == h + 1
    ensures Add(ProgressionWord(h), Q) == ProgressionWord(i)
  {
  }

  /** The first `n` table words as the loop of lines 41-44 fills them. */
  function Progression(n: nat): (r: seq<Word>)
    requires 1 <= n
    ensures |r| == n
  {
    if n == 1 then [P] else var s := Progression(n - 1); s + [Add(s[n - 2], Q)]
  }

  /** Word `i` of the progression is `P + i·Q` modulo 2^32. */
  lemma {:induction false} ProgressionClosedForm(n: nat)
    requires 1 <= n <= EXPANDED_KEY_SIZE
    ensures forall i: Word :: (i as int) < n ==> Progression(n)[i as int] == ProgressionWord(i)
  {
    if n > 1 {
      ProgressionClosedForm(n - 1);
      var r := Progression(n);
      forall i: Word | (i as int) < n
        ensures r[i as int] == ProgressionWord(i)
      {
        if (i as int) == n - 1 {
          var h := i - 1;
          assert (h as int) == n - 2;
          ProgressionSucc(h, i);
        }
      }
    }
  }

  /** The table before mixing: `P + i·Q` in every slot, independent of what
      the table held before. */
  function InitialTable(): (S: seq<Word>)
    ensures |S| == EXPANDED_KEY_SIZE
    ensures forall i: Word :: i < 26 ==> S[i as int] == ProgressionWord(i)
  {
    ProgressionClosedForm(EXPANDED_KEY_SIZE);
    Progression(EXPANDED_KEY_SIZE)
  }

  // ---------------------------------------------------------------------
  // Section 5.5 of RFC 2040: mixing the key into the table
  // ---------------------------------------------------------------------

  /** The state of the mixing loop: the table, the key words and the two
      accumulators. */
  datatype Mixer = Mixer(S: seq<Word>, L: seq<Word>, A: Word, B: Word)
  {
    predicate Valid()
    {
      |S| == EXPANDED_KEY_SIZE && |L| == KEY_WORDS
    }
  }

  /** The table slot written by mixing iteration `k`. */
  function TableSlot(k: nat): nat
  {
    k % EXPANDED_KEY_SIZE
  }

  /** The key word written by mixing iteration `k`. */
  function KeySlot(k: nat): nat
  {
    k % KEY_WORDS
  }

  /** Advancing the table index by one, wrapping around, follows the
      iteration count. */
  lemma NextTableSlot(k: nat)
    ensures (TableSlot(k) + 1) % EXPANDED_KEY_SIZE == TableSlot(k + 1)
  {
  }

  /** Advancing the key-word index by one, wrapping around, follows the
      iteration count. */
  lemma NextKeySlot(k: nat)
    ensures (KeySlot(k) + 1) % KEY_WORDS == KeySlot(k + 1)
  {
  }

  /** Mixing iteration `k` (lines 52-55): it rewrites table slot `k mod 26`
      with the new A, key word `k mod 4` with the new B, and nothing else. */
  function MixStep(m: Mixer, k: nat): (r: Mixer)
    requires m.Valid()
    ensures r.Valid()
  {
    var i := TableSlot(k);
    var j := KeySlot(k);
    var a := RotateLeft(Add(m.S[i], Add(m.A, m.B)), 3);
    var b := RotateLeft(Add(m.L[j], Add(a, m.B)), Add(a, m.B));
    Mixer(m.S[i := a], m.L[j := b], a, b)
  }

  /** Iteration `k` writes the new A into table slot `k mod 26` and the new
      B into key word `k mod 4`, and changes no other slot or key word. */
  lemma MixStepWritesOneSlotEach(m: Mixer, k: nat)
    requires m.Valid()
    ensures var r := MixStep(m, k);
      && r.S[TableSlot(k)] == r.A && r.L[KeySlot(k)] == r.B
      && (forall s :: 0 <= s < EXPANDED_KEY_SIZE && s != TableSlot(k) ==> r.S[s] == m.S[s])
      && (forall j :: 0 <= j < KEY_WORDS && j != KeySlot(k) ==> r.L[j] == m.L[j])
  {
  }

  /** The state after the first `n` mixing iterations. */
  function MixSteps(m: Mixer, n: nat): (r: Mixer)
    requires m.Valid()
    ensures r.Valid()
  {
    if n == 0 then m else MixStep(MixSteps(m, n - 1), n - 1)
  }

  /** Number of mixing iterations: three passes over the table. */
  const MIX_ITERATIONS: nat := 3 * EXPANDED_KEY_SIZE

  /** The mixing loop's starting state for a key. */
  function MixStart(key: seq<Byte>): (m: Mixer)
    requires |key| >= KEY_BYTES
    ensures m.Valid()
  {
    Mixer(InitialTable(), KeyWords(key), 0, 0)
  }

  /** The expanded key table of a key (section 5 of RFC 2040). */
  function ExpandKey(key: seq<Byte>): (S: seq<Word>)
    requires |key| >= KEY_BYTES
    ensures |S| == EXPANDED_KEY_SIZE
  {
    MixSteps(MixStart(key), MIX_ITERATIONS).S
  }

  /** Each table slot is rewritten by exactly three of the 78 iterations. */
  lemma EachSlotWrittenThreeTimes(s: nat)
    requires s < EXPANDED_KEY_SIZE
    ensures (set k | 0 <= k < MIX_ITERATIONS && TableSlot(k) == s) == {s, s + 26, s + 52}
    ensures |set k | 0 <= k < MIX_ITERATIONS && TableSlot(k) == s| == 3
  {
    var w := set k | 0 <= k < MIX_ITERATIONS && TableSlot(k) == s;
    assert TableSlot(s) == s && TableSlot(s + 26) == s && TableSlot(s + 52) == s;
    assert w == {s, s + 26, s + 52};
  }

  /** Iterations 52 to 77 make up the third pass over the table. */
  lemma ThirdPassSlot(k: nat)
    requires 2 * EXPANDED_KEY_SIZE <= k < MIX_ITERATIONS
    ensures TableSlot(k) == k - 2 * EXPANDED_KEY_SIZE
  {
  }

  /** Once iteration `s + 52` (the last one of the third pass to touch slot
      `s`) has run, no later iteration changes slot `s`. */
  lemma {:induction false} SlotKeepsLastWrite(m: Mixer, s: nat, n: nat)
    requires m.Valid() && s < EXPANDED_KEY_SIZE
    requires s + 53 <= n <= MIX_ITERATIONS
    ensures MixSteps(m, n).S[s] == MixSteps(m, s + 53).A
  {
    if n > s + 53 {
      SlotKeepsLastWrite(m, s, n - 1);
      ThirdPassSlot(n - 1);
    } else {
      ThirdPassSlot(s + 52);
    }
  }

  /** Slot `s` of the expanded table is the A value computed by iteration
      `s + 52`, i.e. by the third pass over the table. */
  lemma ExpandedSlotIsThirdPassValue(key: seq<Byte>, s: nat)
    requires |key| >= KEY_BYTES && s < EXPANDED_KEY_SIZE
    ensures ExpandKey(key)[s] == MixSteps(MixStart(key), s + 53).A
  {
    SlotKeepsLastWrite(MixStart(key), s, MIX_ITERATIONS);
  }

  /** The schedule reads only the first `KEY_BYTES` bytes of the key. */
  lemma ExpandKeyReadsSixteenBytes(key1: seq<Byte>, key2: seq<Byte>)
    requires |key1| >= KEY_BYTES && |key2| >= KEY_BYTES
    requires key1[..KEY_BYTES] == key2[..KEY_BYTES]
    ensures ExpandKey(key1) == ExpandKey(key2)
  {
    assert forall i :: 0 <= i < KEY_BYTES ==> key1[i] == key1[..KEY_BYTES][i];
    assert KeyWords(key1) == KeyWords(key2);
  }

  // ---------------------------------------------------------------------
  // The Java method
  // ---------------------------------------------------------------------

  /** The key-packing loop (lines 36-38) over the object's key-word array,
      which holds `prior` on entry. */
  method PackKeyWords(key: seq<Byte>, prior: seq<Word>) returns (keyWords: seq<Word>)
    requires |key| >= KEY_BYTES && |prior| == KEY_WORDS
    ensures keyWords == KeyWords(key)
  {
    var u := WORD_SIZE / 8;
    keyWords := prior;
    var i: int := KEY_BYTES - 1;
    while i >= 0
      invariant -1 <= i < KEY_BYTES
      invariant keyWords == PackDown(prior, key, i + 1)
    {
      keyWords := keyWords[i / u := ShiftInByte(keyWords[i / u], key[i])];
      i := i - 1;
    }
    PackingIgnoresPriorContents(prior, key);
  }

  /** The table-initialisation loop (lines 41-44) over the object's table,
      which holds `prior` on entry. */
  method InitTable(prior: seq<Word>) returns (expandedKey: seq<Word>)
    requires |prior| == EXPANDED_KEY_SIZE
    ensures expandedKey == InitialTable()
  {
    expandedKey := prior[0 := P];
    var i := 1;
    while i < EXPANDED_KEY_SIZE
      invariant 1 <= i <= EXPANDED_KEY_SIZE
      invariant |expandedKey| == EXPANDED_KEY_SIZE
      invariant expandedKey[..i] == Progression(i)
    {
      expandedKey := expandedKey[i := Add(expandedKey[i - 1], Q)];
      i := i + 1;
    }
    assert expandedKey == expandedKey[..EXPANDED_KEY_SIZE];
  }

  /** The mixing loop (lines 47-56), computing with Java's shift-or
      rotation.  Its two indices follow the iteration count, so every array
      access is in bounds. */
  method MixKey(table: seq<Word>, keyWords: seq<Word>) returns (expandedKey: seq<Word>, mixedKeyWords: seq<Word>)
    requires |table| == EXPANDED_KEY_SIZE && |keyWords| == KEY_WORDS
    ensures expandedKey == MixSteps(Mixer(table, keyWords, 0, 0), MIX_ITERATIONS).S
    ensures mixedKeyWords == MixSteps(Mixer(table, keyWords, 0, 0), MIX_ITERATIONS).L
  {
    expandedKey, mixedKeyWords := table, keyWords;
    ghost var start := Mixer(table, keyWords, 0, 0);
    var tempA: Word, tempB: Word := 0, 0;
    var indexS, indexL := 0, 0;
    var k := 0;
    while k < 3 * EXPANDED_KEY_SIZE
      invariant 0 <= k <= MIX_ITERATIONS
      invariant indexS == TableSlot(k) && indexL == KeySlot(k)
      invariant Mixer(expandedKey, mixedKeyWords, tempA, tempB) == MixSteps(start, k)
    {
      NextTableSlot(k);
      NextKeySlot(k);
      JavaRotateLeftRotates(Add(expandedKey[indexS], Add(tempA, tempB)), 3);
      tempA := JavaRotateLeft(Add(expandedKey[indexS], Add(tempA, tempB)), 3);
      expandedKey := expandedKey[indexS := tempA];
      JavaRotateLeftRotates(Add(mixedKeyWords[indexL], Add(tempA, tempB)), Add(tempA, tempB));
      tempB := JavaRotateLeft(Add(mixedKeyWords[indexL], Add(tempA, tempB)), Add(tempA, tempB));
      mixedKeyWords := mixedKeyWords[indexL := tempB];
      indexS := (indexS + 1) % EXPANDED_KEY_SIZE;
      indexL := (indexL + 1) % KEY_WORDS;
      k := k + 1;
    }
  }

  /** `setupKey(key)` (lines 31-57).  `priorTable` and `priorKeyWords` are the
      contents of the object's arrays before the call (zeros for a fresh
      object, an older schedule when re-keying); the result is the expanded
      table of the first sixteen key bytes whatever they were, so re-keying
      is deterministic.  The final key words are returned too, since Java
      leaves them in the object. */
  method SetupKey(key: seq<Byte>, priorTable: seq<Word>, priorKeyWords: seq<Word>)
    returns (expandedKey: seq<Word>, keyWords: seq<Word>)
    requires |key| >= KEY_BYTES
    requires |priorTable| == EXPANDED_KEY_SIZE && |priorKeyWords| == KEY_WORDS
    ensures expandedKey == ExpandKey(key)
    ensures keyWords == MixSteps(MixStart(key), MIX_ITERATIONS).L
  {
    var packed := PackKeyWords(key, priorKeyWords);
    var table := InitTable(priorTable);
    expandedKey, keyWords := MixKey(table, packed);
  }
}
