/**
 * The counting core of apps/beginner/text_analyzer/src/text_analyzer.c: the djb2 word
 * hash, the chained word-frequency table, word extraction and the per-line statistics.
 *
 * Text is a `seq<char>` whose characters are the bytes of the C buffer; the C code passes
 * plain (signed) `char` values to hash_string, so a byte of 128 or more enters the hash as
 * a negative number.
 */
module TextAnalyzer {
  import opened Wrappers
  import opened CType

  const MAX_WORD_LENGTH: nat := 256
  const HASH_TABLE_SIZE: nat := 1024
  /** The range of `unsigned int`. */
  const U32: nat := 0x1_0000_0000

  // ---------------------------------------------------------------------------------
  // hash_string (lines 131-142)
  // ---------------------------------------------------------------------------------

  /** The value of a `char` (a byte, below 256) as the C code reads it: a signed byte. */
  function SignedChar(c: char): int {
    if c as int < 128 then c as int else c as int - 256
  }

  /** tolower of a signed char: upper-case ASCII letters move up by 32, everything else stays. */
  function LowerCode(c: char): int {
    var v := SignedChar(c);
    if 'A' as int <= v <= 'Z' as int then v + 32 else v
  }

  /** The 32-bit djb2 accumulator after folding in every character of `s`. */
  function Djb2(s: seq<char>): (h: nat)
    ensures h < U32
  {
    if s == [] then 5381 else (Djb2(s[..|s| - 1]) * 33 + LowerCode(s[|s| - 1])) % U32
  }

  /** The bucket of a word. */
  function Hash(s: seq<char>): (b: nat)
    ensures b < HASH_TABLE_SIZE
  {
    Djb2(s) % HASH_TABLE_SIZE
  }

  /** hash_string: folds `hash * 33 + tolower(c)` over the string in unsigned 32-bit arithmetic, then reduces it to a bucket. */
  method HashString(str: seq<char>) returns (h: nat)
    ensures h == Hash(str) && h < HASH_TABLE_SIZE
  {
    var hash: nat := 5381;
    var i := 0;
    while i < |str|
      invariant 0 <= i <= |str| && hash == Djb2(str[..i])
    {
      ShiftAdd(hash, LowerCode(str[i]));
      hash := ((hash * 32) % U32 + hash + LowerCode(str[i])) % U32;
      assert str[..i + 1][..i] == str[..i];
      i := i + 1;
    }
    assert str[..i] == str;
    h := hash % HASH_TABLE_SIZE;
  }

  /** `(hash << 5) + hash + c` in 32 bits is `hash * 33 + c` reduced once. */
  lemma ShiftAdd(hash: nat, c: int)
    ensures ((hash * 32) % U32 + hash + c) % U32 == (hash * 33 + c) % U32
  {
    var q := hash * 32 / U32;
    assert hash * 32 == q * U32 + (hash * 32) % U32;
    assert hash * 33 + c == ((hash * 32) % U32 + hash + c) + q * U32;
    ModShift((hash * 32) % U32 + hash + c, q);
  }

  /** Adding whole multiples of the modulus does not change the remainder. */
  lemma {:induction false} ModShift(x: int, q: nat)
    ensures (x + q * U32) % U32 == x % U32
    decreases q
  {
    if q > 0 {
      ModShift(x, q - 1);
      assert x + q * U32 == (x + (q - 1) * U32) + U32;
    }
  }

  /** The string with every character passed through tolower. */
  function Lowered(s: seq<char>): (r: seq<char>)
    ensures |r| == |s| && forall i :: 0 <= i < |s| ==> r[i] == ToLower(s[i])
  {
    seq(|s|, i requires 0 <= i < |s| => ToLower(s[i]))
  }

  /** hash_string is case-insensitive: a string hashes like its lower-case form. */
  lemma {:induction false} HashIgnoresCase(s: seq<char>)
    ensures Djb2(Lowered(s)) == Djb2(s) && Hash(Lowered(s)) == Hash(s)
    decreases |s|
  {
    if s != [] {
      var n := |s| - 1;
      var l := Lowered(s);
      HashIgnoresCase(s[..n]);
      assert l[..n] == Lowered(s[..n]);
      LowerCodeOfLower(s[n]);
      assert l[n] == ToLower(s[n]);
    }
  }

  /** tolower of a lower-cased character changes nothing more. */
  lemma LowerCodeOfLower(c: char)
    ensures LowerCode(ToLower(c)) == LowerCode(c)
  {
  }

  /** Two words that agree up to case land in the same bucket. */
  lemma SameBucketUpToCase(s: seq<char>, t: seq<char>)
    requires Lowered(s) == Lowered(t)
    ensures Hash(s) == Hash(t)
  {
    HashIgnoresCase(s);
    HashIgnoresCase(t);
  }

  // ---------------------------------------------------------------------------------
  // The word frequency table (lines 76-96, 117-122, 152-185)
  // ---------------------------------------------------------------------------------

  /** The key a word is counted under: its first 255 characters, lower-cased. */
  function Key(word: seq<char>): (k: seq<char>)
    ensures |k| < MAX_WORD_LENGTH && (word != [] ==> k != [])
  {
    Lowered(if |word| < MAX_WORD_LENGTH then word else word[..MAX_WORD_LENGTH - 1])
  }

  /** Counting one more occurrence of a word. */
  function Tally(counts: map<seq<char>, nat>, word: seq<char>): map<seq<char>, nat> {
    var k := Key(word);
    counts[k := (if k in counts then counts[k] else 0) + 1]
  }

  /** One more occurrence of a word sets its key's count to `v`. */
  lemma TallyIs(counts: map<seq<char>, nat>, word: seq<char>, k: seq<char>, v: nat)
    requires k == Key(word)
    requires if k in counts then v == counts[k] + 1 else v == 1
    ensures Tally(counts, word) == counts[k := v]
  {
  }

  /** Counting every word of a sequence, in order. */
  function TallyAll(counts: map<seq<char>, nat>, words: seq<seq<char>>): map<seq<char>, nat>
    decreases |words|
  {
    if words == [] then counts else TallyAll(Tally(counts, words[0]), words[1..])
  }

  /** The keys of a sequence of words. */
  function Keys(words: seq<seq<char>>): set<seq<char>> {
    set i | 0 <= i < |words| :: Key(words[i])
  }

  /** After counting a sequence of words, the counted keys are the old ones and the keys of those words. */
  lemma {:induction false} TallyAllKeys(counts: map<seq<char>, nat>, words: seq<seq<char>>)
    ensures TallyAll(counts, words).Keys == counts.Keys + Keys(words)
    decreases |words|
  {
    if words != [] {
      TallyAllKeys(Tally(counts, words[0]), words[1..]);
      assert Keys(words) == {Key(words[0])} + Keys(words[1..]) by {
        forall k | k in Keys(words)
          ensures k in {Key(words[0])} + Keys(words[1..])
        {
          var i :| 0 <= i < |words| && k == Key(words[i]);
          if i > 0 {
            assert k == Key(words[1..][i - 1]);
          }
        }
        forall k | k in Keys(words[1..])
          ensures k in Keys(words)
        {
          var i :| 0 <= i < |words[1..]| && k == Key(words[1..][i]);
          assert k == Key(words[i + 1]);
        }
      }
    }
  }

  /** A word and the number of times it has been counted. */
  datatype WordEntry = WordEntry(word: seq<char>, frequency: nat)

  /** Whether a chain holds an entry for `word`, walking it from the head. */
  predicate InChain(chain: seq<WordEntry>, word: seq<char>) {
    chain != [] && (chain[0].word == word || InChain(chain[1..], word))
  }

  /** The word of any entry is in the chain. */
  lemma {:induction false} InChainAt(chain: seq<WordEntry>, i: nat)
    requires i < |chain|
    ensures InChain(chain, chain[i].word)
    decreases i
  {
    if i > 0 {
      InChainAt(chain[1..], i - 1);
      assert chain[1..][i - 1] == chain[i];
    }
  }

  /** A word in the chain sits at some index. */
  lemma {:induction false} InChainIndex(chain: seq<WordEntry>, word: seq<char>) returns (i: nat)
    requires InChain(chain, word)
    ensures i < |chain| && chain[i].word == word
    decreases |chain|
  {
    if chain[0].word == word {
      i := 0;
    } else {
      var j := InChainIndex(chain[1..], word);
      i := j + 1;
    }
  }

  /**
   * WordFrequencyTable: HASH_TABLE_SIZE chains, each modelled as the sequence of its
   * entries from the head, and the number of entries. `counts` is the frequency of every
   * key the table holds.
   */
  class WordFrequencyTable {
    var buckets: seq<seq<WordEntry>>
    var totalEntries: nat
    ghost var counts: map<seq<char>, nat>

    /** The chains agree with `counts`, and `totalEntries` is the number of distinct words. */
    ghost predicate Valid()
      reads this
    {
      TableInvariant(buckets, counts) && totalEntries == |counts|
    }

    /** init_word_frequency_table: every chain empty and no entries. */
    constructor ()
      ensures Valid() && counts == map[]
      ensures buckets == seq(HASH_TABLE_SIZE, _ => []) && totalEntries == 0
    {
      buckets := seq(HASH_TABLE_SIZE, _ => []);
      totalEntries := 0;
      counts := map[];
    }

    /** The frequency the table records for a word, found by walking its bucket's chain. */
    function Frequency(word: seq<char>): (r: Option<nat>)
      reads this
      requires Valid()
      ensures r.Some? <==> word in counts
      ensures r.Some? ==> r.value == counts[word]
    {
      CountedInOwnBucket(buckets, counts, word);
      FindInChain(buckets[Hash(word)], word)
    }

    /**
     * add_word_to_table: an empty word changes nothing; otherwise the word's key gets one
     * more count, in place when the chain already holds it and as a new head entry of
     * frequency 1 otherwise, which adds one to `totalEntries`.
     */
    method AddWord(word: seq<char>)
      requires Valid()
      modifies this
      ensures Valid()
      ensures word == [] ==> buckets == old(buckets) && totalEntries == old(totalEntries) && counts == old(counts)
      ensures word != [] ==> counts == Tally(old(counts), word)
      ensures word != [] && Key(word) in old(counts) ==> totalEntries == old(totalEntries)
      ensures word != [] && Key(word) !in old(counts) ==>
        && totalEntries == old(totalEntries) + 1
        && buckets == old(buckets)[Hash(Key(word)) := [WordEntry(Key(word), 1)] + old(buckets)[Hash(Key(word))]]
    {
      if |word| == 0 {
        return;
      }
      var lower := LowerPrefix(word);
      ghost var v := (if lower in counts then counts[lower] else 0) + 1;
      AddKey(lower);
      TallyIs(old(counts), word, lower, v);
    }

    /**
     * The part of add_word_to_table after lower-casing: one more count for `key`, by
     * raising its entry's frequency or by a new head entry in its bucket.
     */
    method AddKey(key: seq<char>)
      requires Valid()
      modifies this
      ensures Valid()
      ensures counts == old(counts)[key := (if key in old(counts) then old(counts)[key] else 0) + 1]
      ensures key in old(counts) ==> totalEntries == old(totalEntries)
      ensures key !in old(counts) ==>
        && totalEntries == old(totalEntries) + 1
        && buckets == old(buckets)[Hash(key) := [WordEntry(key, 1)] + old(buckets)[Hash(key)]]
    {
      ghost var cs0 := counts;
      var h := HashString(key);
      var i := FindEntry(buckets[h], key);
      if i < |buckets[h]| {
        var f := buckets[h][i].frequency;
        var bs := buckets[h := buckets[h][i := WordEntry(key, f + 1)]];
        ghost var cs := cs0[key := f + 1];
        BumpKeepsValid(buckets, bs, cs0, cs, h, i, key);
        assert cs == cs0[key := (if key in cs0 then cs0[key] else 0) + 1];
        buckets, counts := bs, cs;
      } else {
        var bs := buckets[h := [WordEntry(key, 1)] + buckets[h]];
        ghost var cs := cs0[key := 1];
        PrependKeepsValid(buckets, bs, cs0, cs, h, key);
        buckets, counts := bs, cs;
        totalEntries := totalEntries + 1;
      }
    }
  }

  /** The search loop of add_word_to_table: the index of the entry for `word`, or the chain's length when there is none. */
  method FindEntry(chain: seq<WordEntry>, word: seq<char>) returns (i: nat)
    ensures i <= |chain|
    ensures i < |chain| ==> chain[i].word == word
    ensures i == |chain| <==> !InChain(chain, word)
  {
    i := 0;
    while i < |chain|
      invariant 0 <= i <= |chain|
      invariant forall j :: 0 <= j < i ==> chain[j].word != word
    {
      if chain[i].word == word {
        InChainAt(chain, i);
        return;
      }
      i := i + 1;
    }
    if InChain(chain, word) {
      var j := InChainIndex(chain, word);
    }
  }

  /** The frequency recorded in a chain for a word. */
  function FindInChain(chain: seq<WordEntry>, word: seq<char>): (r: Option<nat>)
    ensures r.Some? <==> InChain(chain, word)
    ensures r.Some? ==> exists i :: 0 <= i < |chain| && chain[i] == WordEntry(word, r.value)
  {
    if chain == [] then None
    else if chain[0].word == word then Some(chain[0].frequency)
    else
      var r := FindInChain(chain[1..], word);
      if r.Some? then
        var i :| 0 <= i < |chain[1..]| && chain[1..][i] == WordEntry(word, r.value);
        assert chain[i + 1] == WordEntry(word, r.value);
        r
      else r
  }

  /** The lower-casing loop of add_word_to_table: the key of the word. */
  method LowerPrefix(word: seq<char>) returns (lower: seq<char>)
    ensures lower == Key(word)
  {
    lower := [];
    var i := 0;
    while i < |word| && i < MAX_WORD_LENGTH - 1
      invariant 0 <= i <= |word| && i < MAX_WORD_LENGTH
      invariant lower == Lowered(word[..i])
    {
      lower := lower + [ToLower(word[i])];
      i := i + 1;
    }
    assert word[..i] == (if |word| < MAX_WORD_LENGTH then word else word[..MAX_WORD_LENGTH - 1]);
  }

  /**
   * A chain of bucket `b`: each entry's word hashes to `b` and carries that word's count,
   * and no word appears twice.
   */
  ghost predicate ChainOK(chain: seq<WordEntry>, b: nat, counts: map<seq<char>, nat>) {
    && (forall i :: 0 <= i < |chain| ==>
          Hash(chain[i].word) == b && chain[i].word in counts && counts[chain[i].word] == chain[i].frequency)
    && (forall i, j :: 0 <= i < j < |chain| ==> chain[i].word != chain[j].word)
  }

  /** Every chain is consistent with the counts, and every counted word has an entry in its bucket. */
  ghost predicate TableInvariant(buckets: seq<seq<WordEntry>>, counts: map<seq<char>, nat>) {
    && |buckets| == HASH_TABLE_SIZE
    && (forall b :: 0 <= b < |buckets| ==> ChainOK(buckets[b], b, counts))
    && (forall w {:trigger Located(buckets, w)} :: w in counts ==> Located(buckets, w))
  }

  /** The chain of the bucket of `w` holds an entry for `w`. */
  ghost predicate Located(buckets: seq<seq<WordEntry>>, w: seq<char>)
    requires |buckets| == HASH_TABLE_SIZE
  {
    InChain(buckets[Hash(w)], w)
  }

  /** A counted word has its entry in the bucket of its hash. */
  lemma CountedInOwnBucket(bs: seq<seq<WordEntry>>, cs: map<seq<char>, nat>, w: seq<char>)
    requires TableInvariant(bs, cs)
    ensures w in cs <==> InChain(bs[Hash(w)], w)
  {
    if InChain(bs[Hash(w)], w) {
      var j := InChainIndex(bs[Hash(w)], w);
    }
    assert w in cs ==> Located(bs, w);
  }

  /** A chain of another bucket is unaffected by a new count for `w`. */
  lemma OtherChainOK(chain: seq<WordEntry>, b: nat, cs: map<seq<char>, nat>, w: seq<char>, v: nat)
    requires ChainOK(chain, b, cs) && Hash(w) != b
    ensures ChainOK(chain, b, cs[w := v])
  {
  }

  /** Raising an entry's frequency together with its word's count keeps the chain consistent. */
  lemma BumpedChainOK(chain: seq<WordEntry>, b: nat, cs: map<seq<char>, nat>, i: nat)
    requires ChainOK(chain, b, cs) && i < |chain|
    ensures ChainOK(chain[i := WordEntry(chain[i].word, chain[i].frequency + 1)], b,
                    cs[chain[i].word := chain[i].frequency + 1])
  {
  }

  /** A new head entry of frequency 1 for an uncounted word of this bucket keeps the chain consistent. */
  lemma PrependedChainOK(chain: seq<WordEntry>, b: nat, cs: map<seq<char>, nat>, w: seq<char>)
    requires ChainOK(chain, b, cs) && Hash(w) == b && w !in cs
    ensures ChainOK([WordEntry(w, 1)] + chain, b, cs[w := 1])
  {
    var chain' := [WordEntry(w, 1)] + chain;
    forall i, j | 0 <= i < j < |chain'|
      ensures chain'[i].word != chain'[j].word
    {
      assert chain'[j] == chain[j - 1];
    }
  }

  /** Raising the frequency of an entry in place keeps the table consistent. */
  lemma BumpKeepsValid(bs: seq<seq<WordEntry>>, bs': seq<seq<WordEntry>>, cs: map<seq<char>, nat>,
                       cs': map<seq<char>, nat>, h: nat, i: nat, w: seq<char>)
    requires TableInvariant(bs, cs)
    requires h < |bs| && i < |bs[h]| && bs[h][i].word == w
    requires bs' == bs[h := bs[h][i := WordEntry(w, bs[h][i].frequency + 1)]]
    requires cs' == cs[w := bs[h][i].frequency + 1]
    ensures w in cs && cs[w] == bs[h][i].frequency
    ensures TableInvariant(bs', cs') && |cs'| == |cs|
  {
    assert cs'.Keys == cs.Keys;
    forall b | 0 <= b < |bs'|
      ensures ChainOK(bs'[b], b, cs')
    {
      if b == h {
        BumpedChainOK(bs[h], h, cs, i);
      } else {
        OtherChainOK(bs[b], b, cs, w, bs[h][i].frequency + 1);
      }
    }
    forall u | u in cs'
      ensures Located(bs', u)
    {
      assert Located(bs, u);
      var j := InChainIndex(bs[Hash(u)], u);
      InChainAt(bs'[Hash(u)], j);
    }
  }

  /** Putting a new word at the head of its chain keeps the table consistent. */
  lemma PrependKeepsValid(bs: seq<seq<WordEntry>>, bs': seq<seq<WordEntry>>, cs: map<seq<char>, nat>,
                          cs': map<seq<char>, nat>, h: nat, w: seq<char>)
    requires TableInvariant(bs, cs)
    requires h < |bs| && h == Hash(w) && !InChain(bs[h], w)
    requires bs' == bs[h := [WordEntry(w, 1)] + bs[h]]
    requires cs' == cs[w := 1]
    ensures w !in cs
    ensures TableInvariant(bs', cs') && |cs'| == |cs| + 1
  {
    CountedInOwnBucket(bs, cs, w);
    forall b | 0 <= b < |bs'|
      ensures ChainOK(bs'[b], b, cs')
    {
      if b == h {
        PrependedChainOK(bs[h], h, cs, w);
      } else {
        OtherChainOK(bs[b], b, cs, w, 1);
      }
    }
    forall u | u in cs'
      ensures Located(bs', u)
    {
      if u == w {
        InChainAt(bs'[h], 0);
      } else {
        assert Located(bs, u);
        var j := InChainIndex(bs[Hash(u)], u);
        if Hash(u) == h {
          InChainAt(bs'[h], j + 1);
        } else {
          InChainAt(bs'[Hash(u)], j);
        }
      }
    }
  }

  // ---------------------------------------------------------------------------------
  // extract_word (lines 230-246)
  // ---------------------------------------------------------------------------------

  /** The number of leading characters of `s` that are not letters. */
  function NonLetterPrefix(s: seq<char>): (n: nat)
    ensures n <= |s| && (forall i :: 0 <= i < n ==> !IsAlpha(s[i])) && (n < |s| ==> IsAlpha(s[n]))
  {
    if s == [] || IsAlpha(s[0]) then 0 else 1 + NonLetterPrefix(s[1..])
  }

  /** The number of leading letters of `s`. */
  function LetterPrefix(s: seq<char>): (n: nat)
    ensures n <= |s| && (forall i :: 0 <= i < n ==> IsAlpha(s[i])) && (n < |s| ==> !IsAlpha(s[n]))
  {
    if s == [] || !IsAlpha(s[0]) then 0 else 1 + LetterPrefix(s[1..])
  }

  /**
   * What extract_word yields from `line` at `pos` with a buffer of `size` bytes: the
   * position after the word and the word. Non-letters are skipped, then at most
   * `size - 1` letters are taken.
   */
  function Extract(line: seq<char>, pos: nat, size: nat): (r: (nat, seq<char>))
    requires pos <= |line| && size > 0
    ensures pos <= r.0 <= |line| && |r.1| <= size - 1 && |r.1| <= r.0 - pos
    ensures r.1 == line[r.0 - |r.1|..r.0]
    ensures forall i :: 0 <= i < |r.1| ==> IsAlpha(r.1[i])
    ensures forall i :: pos <= i < r.0 - |r.1| ==> !IsAlpha(line[i])
    ensures r.0 == |line| || !IsAlpha(line[r.0]) || |r.1| == size - 1
    ensures pos < |line| && size > 1 ==> r.0 > pos
  {
    var start := pos + NonLetterPrefix(line[pos..]);
    var n := LetterPrefix(line[start..]);
    var len := if n < size - 1 then n else size - 1;
    assert forall i :: pos <= i < start ==> line[i] == line[pos..][i - pos];
    assert forall i :: 0 <= i < len ==> line[start..start + len][i] == line[start..][i];
    assert start + len < |line| && len == n ==> line[start + len] == line[start..][len];
    (start + len, line[start..start + len])
  }

  /**
   * extract_word: with a buffer of at least one byte, writes the extracted word and a
   * NUL into it and returns the new position; with an empty buffer, returns `pos` and
   * writes nothing.
   */
  method ExtractWord(line: seq<char>, pos: nat, word: array<char>) returns (newPos: nat)
    requires NoNul(line) && pos <= |line|
    modifies word
    ensures word.Length == 0 ==> newPos == pos
    ensures word.Length > 0 ==>
      && NUL in word[..] && (newPos, CStr(word[..])) == Extract(line, pos, word.Length)
      && word[|CStr(word[..])| + 1..] == old(word[..])[|CStr(word[..])| + 1..]
  {
    if word.Length == 0 {
      return pos;
    }
    ghost var before := word[..];
    newPos := pos;
    while newPos < |line| && !IsAlpha(line[newPos])
      invariant pos <= newPos <= |line|
      invariant forall i :: pos <= i < newPos ==> !IsAlpha(line[i])
    {
      newPos := newPos + 1;
    }
    var start := newPos;
    newPos := CopyLetters(line, start, word);
    var wordLen := newPos - start;
    word[wordLen] := NUL;
    ExtractIs(line, pos, word.Length, start, newPos);
    WordWritten(line[start..newPos], word[..], before);
  }

  /**
   * The copying loop of extract_word: the letters from `start` on go to the front of
   * `word`, as many as fit with room left for the NUL; the rest of `word` is untouched.
   */
  method CopyLetters(line: seq<char>, start: nat, word: array<char>) returns (end: nat)
    requires start <= |line| && word.Length > 0
    modifies word
    ensures start <= end <= |line| && end - start < word.Length
    ensures forall i :: start <= i < end ==> IsAlpha(line[i])
    ensures end == |line| || !IsAlpha(line[end]) || end - start == word.Length - 1
    ensures word[..end - start] == line[start..end]
    ensures forall k :: end - start <= k < word.Length ==> word[k] == old(word[k])
  {
    end := start;
    var wordLen := 0;
    while end < |line| && IsAlpha(line[end]) && wordLen < word.Length - 1
      invariant start <= end <= |line| && wordLen == end - start < word.Length
      invariant forall i :: start <= i < end ==> IsAlpha(line[i])
      invariant word[..wordLen] == line[start..end]
      invariant forall k :: wordLen <= k < word.Length ==> word[k] == old(word[k])
    {
      word[wordLen] := line[end];
      assert word[..wordLen + 1] == word[..wordLen] + [line[end]];
      wordLen := wordLen + 1;
      end := end + 1;
    }
  }

  /** The buffer of extract_word after the word and its NUL have been written. */
  lemma WordWritten(w: seq<char>, buffer: seq<char>, before: seq<char>)
    requires NoNul(w) && |w| < |buffer| == |before| && buffer[..|w|] == w && buffer[|w|] == NUL
    requires forall k :: |w| < k < |buffer| ==> buffer[k] == before[k]
    ensures NUL in buffer && CStr(buffer) == w && buffer[|w| + 1..] == before[|w| + 1..]
  {
    CStrOf(buffer, w);
    var after, was := buffer[|w| + 1..], before[|w| + 1..];
    assert forall k :: 0 <= k < |after| ==> after[k] == was[k];
  }

  /** The two loops of extract_word stop where Extract says. */
  lemma ExtractIs(line: seq<char>, pos: nat, size: nat, start: nat, end: nat)
    requires pos <= start <= end <= |line| && size > 0 && end - start <= size - 1
    requires forall i :: pos <= i < start ==> !IsAlpha(line[i])
    requires start == |line| || IsAlpha(line[start])
    requires forall i :: start <= i < end ==> IsAlpha(line[i])
    requires end == |line| || !IsAlpha(line[end]) || end - start == size - 1
    ensures Extract(line, pos, size) == (end, line[start..end])
  {
    assert forall i :: pos <= i < |line| ==> line[pos..][i - pos] == line[i];
    assert forall i :: start <= i < |line| ==> line[start..][i - start] == line[i];
  }

  // ---------------------------------------------------------------------------------
  // analyze_line (lines 255-334) and analyze_text_file (lines 345-383)
  // ---------------------------------------------------------------------------------

  const INT_MAX: int := 0x7FFF_FFFF

  /** is_sentence_ending (lines 215-217). */
  predicate IsSentenceEnd(c: char) {
    c == '.' || c == '!' || c == '?'
  }

  /** The number of characters of `s` satisfying `p`. */
  function CountOf(s: seq<char>, p: char -> bool): (n: nat)
    ensures n <= |s|
  {
    if s == [] then 0 else CountOf(s[..|s| - 1], p) + (if p(s[|s| - 1]) then 1 else 0)
  }

  /** Index `i` of `s` starts a maximal run of letters. */
  predicate RunStart(s: seq<char>, i: nat)
    requires i < |s|
  {
    IsAlpha(s[i]) && (i == 0 || !IsAlpha(s[i - 1]))
  }

  /** The number of maximal runs of letters in `s`. */
  function Runs(s: seq<char>): nat {
    if s == [] then 0 else Runs(s[..|s| - 1]) + (if RunStart(s, |s| - 1) then 1 else 0)
  }

  /** A line holding only whitespace: a paragraph separator. */
  predicate Blank(line: seq<char>) {
    forall i :: 0 <= i < |line| ==> IsSpace(line[i])
  }

  /** The words analyze_line extracts from `line` from `pos` on, with a buffer of MAX_WORD_LENGTH bytes. */
  function Words(line: seq<char>, pos: nat): (ws: seq<seq<char>>)
    requires pos <= |line|
    ensures forall k :: 0 <= k < |ws| ==> 0 < |ws[k]| < MAX_WORD_LENGTH
    decreases |line| - pos
  {
    if pos >= |line| then []
    else
      var (next, w) := Extract(line, pos, MAX_WORD_LENGTH);
      (if w == [] then [] else [w]) + Words(line, next)
  }

  /** The words a line adds to the table: none for a blank line. */
  function LineWords(line: seq<char>): seq<seq<char>> {
    if Blank(line) then [] else Words(line, 0)
  }

  /** The words of a sequence of lines, in order. */
  function AllWords(lines: seq<seq<char>>): seq<seq<char>> {
    if lines == [] then [] else AllWords(lines[..|lines| - 1]) + LineWords(lines[|lines| - 1])
  }

  /**
   * The longest-word record after the words `ws`: a word replaces the record only when
   * it is strictly longer. The result is at least as long as the old record and as
   * every word, and is the old record or one of the words.
   */
  function LongestOf(len: int, word: seq<char>, ws: seq<seq<char>>): (r: (int, seq<char>))
    ensures r.0 >= len && forall k :: 0 <= k < |ws| ==> r.0 >= |ws[k]|
    ensures r == (len, word) || exists k :: 0 <= k < |ws| && r == (|ws[k]|, ws[k])
    decreases |ws|
  {
    if ws == [] then (len, word)
    else
      var r := if |ws[0]| > len then LongestOf(|ws[0]|, ws[0], ws[1..]) else LongestOf(len, word, ws[1..]);
      assert forall k :: 1 <= k < |ws| ==> ws[k] == ws[1..][k - 1];
      r
  }

  /**
   * The shortest-word record after the words `ws`: a word replaces the record only when
   * it is strictly shorter. The result is at most the old record and every word, and is
   * the old record or one of the words.
   */
  function ShortestOf(len: int, word: seq<char>, ws: seq<seq<char>>): (r: (int, seq<char>))
    ensures r.0 <= len && forall k :: 0 <= k < |ws| ==> r.0 <= |ws[k]|
    ensures r == (len, word) || exists k :: 0 <= k < |ws| && r == (|ws[k]|, ws[k])
    decreases |ws|
  {
    if ws == [] then (len, word)
    else
      var r := if |ws[0]| < len then ShortestOf(|ws[0]|, ws[0], ws[1..]) else ShortestOf(len, word, ws[1..]);
      assert forall k :: 1 <= k < |ws| ==> ws[k] == ws[1..][k - 1];
      r
  }

  /** The counters of TextStats that analyze_line and analyze_text_file maintain. */
  datatype Counters = Counters(
    characters: int, words: int, lines: int, sentences: int, paragraphs: int, unique: int,
    alphabetic: int, numeric: int, whitespace: int, punctuation: int,
    longestLength: int, longestWord: seq<char>, shortestLength: int, shortestWord: seq<char>)

  /** The longest and shortest records of `c` after offering it the words `ws`. */
  function Records(c: Counters, ws: seq<seq<char>>): Counters {
    var longest := LongestOf(c.longestLength, c.longestWord, ws);
    var shortest := ShortestOf(c.shortestLength, c.shortestWord, ws);
    c.(longestLength := longest.0, longestWord := longest.1,
       shortestLength := shortest.0, shortestWord := shortest.1)
  }

  /** The records after offering one word: each is replaced only by a strictly better word. */
  function Offer(c: Counters, w: seq<char>): Counters {
    var c' := if |w| > c.longestLength then c.(longestLength := |w|, longestWord := w) else c;
    if |w| < c'.shortestLength then c'.(shortestLength := |w|, shortestWord := w) else c'
  }

  /** Offering the words one at a time gives the records of the whole sequence. */
  lemma RecordsStep(c: Counters, w: seq<char>, rest: seq<seq<char>>)
    ensures Records(c, [w] + rest) == Records(Offer(c, w), rest)
  {
    assert ([w] + rest)[0] == w && ([w] + rest)[1..] == rest;
  }

  /** The counters after the character loop of analyze_line on one line. */
  function Counted(c: Counters, line: seq<char>): Counters {
    c.(characters := c.characters + |line|,
       words := c.words + Runs(line),
       sentences := c.sentences + CountOf(line, IsSentenceEnd),
       alphabetic := c.alphabetic + CountOf(line, IsAlpha),
       numeric := c.numeric + CountOf(line, IsDigit),
       whitespace := c.whitespace + CountOf(line, IsSpace),
       punctuation := c.punctuation + CountOf(line, IsPunct))
  }

  /** The counters after analyze_line on one line. */
  function LineStep(c: Counters, line: seq<char>): Counters {
    if Blank(line) then c.(paragraphs := c.paragraphs + 1)
    else Records(Counted(c, line), Words(line, 0))
  }

  /** The counters after analyze_line on each line in turn. */
  function LinesStep(c: Counters, lines: seq<seq<char>>): Counters {
    if lines == [] then c else LineStep(LinesStep(c, lines[..|lines| - 1]), lines[|lines| - 1])
  }

  /** TextStats, without the floating-point averages. */
  class TextStats {
    var totalCharacters: int
    var totalWords: int
    var totalLines: int
    var totalSentences: int
    var totalParagraphs: int
    var uniqueWords: int
    var alphabeticChars: int
    var numericChars: int
    var whitespaceChars: int
    var punctuationChars: int
    var longestWordLength: int
    var longestWord: seq<char>
    var shortestWordLength: int
    var shortestWord: seq<char>

    /** The fields as one value. */
    function Snapshot(): Counters
      reads this
    {
      Counters(totalCharacters, totalWords, totalLines, totalSentences, totalParagraphs, uniqueWords,
               alphabeticChars, numericChars, whitespaceChars, punctuationChars,
               longestWordLength, longestWord, shortestWordLength, shortestWord)
    }

    /** init_text_stats: every counter 0, the shortest length INT_MAX and both words empty. */
    constructor ()
      ensures Snapshot() == Counters(0, 0, 0, 0, 0, 0, 0, 0, 0, 0, 0, [], INT_MAX, [])
    {
      totalCharacters, totalWords, totalLines, totalSentences, totalParagraphs, uniqueWords := 0, 0, 0, 0, 0, 0;
      alphabeticChars, numericChars, whitespaceChars, punctuationChars := 0, 0, 0, 0;
      longestWordLength, longestWord, shortestWordLength, shortestWord := 0, [], INT_MAX, [];
    }

    /** Writes every counter at once. */
    method Store(c: Counters)
      modifies this
      ensures Snapshot() == c
    {
      totalCharacters := c.characters;
      totalWords := c.words;
      totalLines := c.lines;
      totalSentences := c.sentences;
      totalParagraphs := c.paragraphs;
      uniqueWords := c.unique;
      alphabeticChars := c.alphabetic;
      numericChars := c.numeric;
      whitespaceChars := c.whitespace;
      punctuationChars := c.punctuation;
      longestWordLength := c.longestLength;
      longestWord := c.longestWord;
      shortestWordLength := c.shortestLength;
      shortestWord := c.shortestWord;
    }
  }

  /** The blank-line test of analyze_line. */
  method IsEmptyLine(line: seq<char>) returns (empty: bool)
    ensures empty <==> Blank(line)
  {
    var i := 0;
    while i < |line|
      invariant 0 <= i <= |line| && forall j :: 0 <= j < i ==> IsSpace(line[j])
    {
      if !IsSpace(line[i]) {
        return false;
      }
      i := i + 1;
    }
    return true;
  }

  /** Counting one more character of `s` for `p`. */
  lemma CountOfStep(s: seq<char>, i: nat, p: char -> bool)
    requires i < |s|
    ensures CountOf(s[..i + 1], p) == CountOf(s[..i], p) + (if p(s[i]) then 1 else 0)
  {
    assert s[..i + 1][..i] == s[..i];
  }

  /** Counting one more character of `s` for the run starts. */
  lemma RunsStep(s: seq<char>, i: nat)
    requires i < |s|
    ensures Runs(s[..i + 1]) == Runs(s[..i]) + (if RunStart(s, i) then 1 else 0)
  {
    assert s[..i + 1][..i] == s[..i];
    assert RunStart(s[..i + 1], i) == RunStart(s, i);
  }

  /** What the character loop of analyze_line counts in one line. */
  datatype LineCounts = LineCounts(alphabetic: nat, numeric: nat, whitespace: nat, punctuation: nat,
                                   sentences: nat, words: nat)

  /**
   * The character loop of analyze_line: each character counts in the first class of
   * alpha, digit, space, punct it belongs to, '.', '!' and '?' count as sentence ends,
   * and a word is counted where a run of letters ends.
   */
  method CountCharacters(line: seq<char>) returns (c: LineCounts)
    ensures c == LineCounts(CountOf(line, IsAlpha), CountOf(line, IsDigit), CountOf(line, IsSpace),
                            CountOf(line, IsPunct), CountOf(line, IsSentenceEnd), Runs(line))
  {
    var alpha, digits, spaces, punct, sentences, words := 0, 0, 0, 0, 0, 0;
    var inWord := false;
    var i := 0;
    while i < |line|
      invariant 0 <= i <= |line| && inWord == (i > 0 && IsAlpha(line[i - 1]))
      invariant alpha == CountOf(line[..i], IsAlpha) && digits == CountOf(line[..i], IsDigit)
      invariant spaces == CountOf(line[..i], IsSpace) && punct == CountOf(line[..i], IsPunct)
      invariant sentences == CountOf(line[..i], IsSentenceEnd)
      invariant words + (if inWord then 1 else 0) == Runs(line[..i])
    {
      var ch := line[i];
      CountOfStep(line, i, IsAlpha);
      CountOfStep(line, i, IsDigit);
      CountOfStep(line, i, IsSpace);
      CountOfStep(line, i, IsPunct);
      CountOfStep(line, i, IsSentenceEnd);
      RunsStep(line, i);
      if IsAlpha(ch) {
        alpha := alpha + 1;
      } else if IsDigit(ch) {
        digits := digits + 1;
      } else if IsSpace(ch) {
        spaces := spaces + 1;
      } else if IsPunct(ch) {
        punct := punct + 1;
        if IsSentenceEnd(ch) {
          sentences := sentences + 1;
        }
      }
      if IsAlpha(ch) {
        if !inWord {
          inWord := true;
        }
      } else {
        if inWord {
          inWord := false;
          words := words + 1;
        }
      }
      i := i + 1;
    }
    if inWord {
      words := words + 1;
    }
    assert line[..i] == line;
    c := LineCounts(alpha, digits, spaces, punct, sentences, words);
  }

  /** Counting two sequences of words one after the other counts their concatenation. */
  lemma {:induction false} TallyAllAppend(counts: map<seq<char>, nat>, a: seq<seq<char>>, b: seq<seq<char>>)
    ensures TallyAll(counts, a + b) == TallyAll(TallyAll(counts, a), b)
    decreases |a|
  {
    if a != [] {
      assert (a + b)[0] == a[0] && (a + b)[1..] == a[1..] + b;
      TallyAllAppend(Tally(counts, a[0]), a[1..], b);
    } else {
      assert a + b == b;
    }
  }

  /** One step of the whole-word extraction: the words from `pos` are the word found there, if any, then the words after it. */
  lemma WordsStep(line: seq<char>, pos: nat, next: nat, w: seq<char>)
    requires pos < |line| && (next, w) == Extract(line, pos, MAX_WORD_LENGTH)
    ensures next <= |line|
    ensures Words(line, pos) == (if w == [] then [] else [w]) + Words(line, next)
  {
  }

  /** Counting one word, then the rest, counts them all. */
  lemma TallyAllStep(counts: map<seq<char>, nat>, w: seq<char>, rest: seq<seq<char>>)
    ensures TallyAll(counts, [w] + rest) == TallyAll(Tally(counts, w), rest)
  {
    assert ([w] + rest)[0] == w && ([w] + rest)[1..] == rest;
  }

  /** The body of the word loop of analyze_line for a word that was found. */
  method RecordWord(w: seq<char>, stats: TextStats, table: WordFrequencyTable)
    requires w != [] && table.Valid()
    modifies stats, table
    ensures table.Valid() && table.counts == Tally(old(table.counts), w)
    ensures stats.Snapshot() == Offer(old(stats.Snapshot()), w)
  {
    table.AddWord(w);
    assert stats.Snapshot() == old(stats.Snapshot());
    if |w| > stats.longestWordLength {
      stats.longestWordLength := |w|;
      stats.longestWord := w;
    }
    if |w| < stats.shortestWordLength {
      stats.shortestWordLength := |w|;
      stats.shortestWord := w;
    }
  }

  /**
   * The word loop of analyze_line: every extracted word is added to the table and
   * offered to the longest and shortest records; nothing else in `stats` changes.
   */
  method RecordWords(line: seq<char>, stats: TextStats, table: WordFrequencyTable)
    requires NoNul(line) && table.Valid()
    modifies stats, table
    ensures table.Valid() && table.counts == TallyAll(old(table.counts), Words(line, 0))
    ensures stats.Snapshot() == Records(old(stats.Snapshot()), Words(line, 0))
  {
    var current := new char[MAX_WORD_LENGTH];
    var pos := 0;
    ghost var c0, s0 := table.counts, stats.Snapshot();
    while pos < |line|
      invariant pos <= |line| && table.Valid() && current.Length == MAX_WORD_LENGTH
      invariant TallyAll(table.counts, Words(line, pos)) == TallyAll(c0, Words(line, 0))
      invariant Records(stats.Snapshot(), Words(line, pos)) == Records(s0, Words(line, 0))
      decreases |line| - pos
    {
      var next := ExtractWord(line, pos, current);
      var len := CLen(current[..]);
      WordsStep(line, pos, next, current[..len]);
      if len > 0 {
        var w := current[..len];
        TallyAllStep(table.counts, w, Words(line, next));
        RecordsStep(stats.Snapshot(), w, Words(line, next));
        RecordWord(w, stats, table);
      }
      pos := next;
    }
  }

  /**
   * analyze_line: a blank line only counts a paragraph; any other line adds its length,
   * its runs of letters as words, its sentence ends and its character classes to the
   * counters, and its words to the table and to the longest and shortest records.
   */
  method AnalyzeLine(line: seq<char>, stats: TextStats, table: WordFrequencyTable)
    requires NoNul(line) && table.Valid()
    modifies stats, table
    ensures table.Valid() && table.counts == TallyAll(old(table.counts), LineWords(line))
    ensures stats.Snapshot() == LineStep(old(stats.Snapshot()), line)
  {
    var empty := IsEmptyLine(line);
    if empty {
      var s := stats.Snapshot();
      stats.Store(s.(paragraphs := s.paragraphs + 1));
    } else {
      AnalyzeWordsLine(line, stats, table);
    }
  }

  /** analyze_line past the blank-line test: counts the characters, then the words. */
  method AnalyzeWordsLine(line: seq<char>, stats: TextStats, table: WordFrequencyTable)
    requires NoNul(line) && !Blank(line) && table.Valid()
    modifies stats, table
    ensures table.Valid() && table.counts == TallyAll(old(table.counts), Words(line, 0))
    ensures stats.Snapshot() == LineStep(old(stats.Snapshot()), line)
  {
    var s := stats.Snapshot();
    var c := CountCharacters(line);
    stats.Store(s.(characters := s.characters + |line|,
                   words := s.words + c.words,
                   sentences := s.sentences + c.sentences,
                   alphabetic := s.alphabetic + c.alphabetic,
                   numeric := s.numeric + c.numeric,
                   whitespace := s.whitespace + c.whitespace,
                   punctuation := s.punctuation + c.punctuation));
    assert stats.Snapshot() == Counted(s, line);
    RecordWords(line, stats, table);
  }

  /** Analyzing one more line extends the counters and the word list by that line's step. */
  lemma LinesAppend(c: Counters, lines: seq<seq<char>>, i: nat)
    requires i < |lines|
    ensures LinesStep(c, lines[..i + 1]) == LineStep(LinesStep(c, lines[..i]), lines[i])
    ensures AllWords(lines[..i + 1]) == AllWords(lines[..i]) + LineWords(lines[i])
  {
    assert lines[..i + 1][..i] == lines[..i];
  }

  /**
   * analyze_text_file over the lines the file yields: every line is analyzed in turn,
   * then `total_lines` becomes the number of lines and `unique_words` the table's
   * number of entries, which is the number of distinct keys counted.
   */
  method AnalyzeText(lines: seq<seq<char>>, stats: TextStats, table: WordFrequencyTable)
    requires forall k :: 0 <= k < |lines| ==> NoNul(lines[k])
    requires table.Valid()
    modifies stats, table
    ensures table.Valid() && table.counts == TallyAll(old(table.counts), AllWords(lines))
    ensures stats.Snapshot() == LinesStep(old(stats.Snapshot()), lines).(lines := |lines|, unique := table.totalEntries)
    ensures stats.uniqueWords == |old(table.counts).Keys + Keys(AllWords(lines))|
  {
    var i := 0;
    ghost var c0, s0 := table.counts, stats.Snapshot();
    while i < |lines|
      invariant 0 <= i <= |lines| && table.Valid()
      invariant table.counts == TallyAll(c0, AllWords(lines[..i]))
      invariant stats.Snapshot() == LinesStep(s0, lines[..i])
    {
      AnalyzeLine(lines[i], stats, table);
      LinesAppend(s0, lines, i);
      TallyAllAppend(c0, AllWords(lines[..i]), LineWords(lines[i]));
      i := i + 1;
    }
    assert lines[..i] == lines;
    var s := stats.Snapshot();
    stats.Store(s.(lines := i, unique := table.totalEntries));
    TallyAllKeys(c0, AllWords(lines));
    assert |table.counts| == |table.counts.Keys|;
  }

  /**
   * compare_word_frequency: higher frequencies first, equal frequencies in strcmp order
   * of their words. Negative means `a` sorts before `b`.
   */
  function CompareWordFrequency(a: WordEntry, b: WordEntry): (r: int)
    ensures r < 0 <==> a.frequency > b.frequency || (a.frequency == b.frequency && Strcmp(a.word, b.word) < 0)
  {
    if a.frequency != b.frequency then b.frequency - a.frequency else Strcmp(a.word, b.word)
  }

  /** Swapping the operands negates the comparison. */
  lemma CompareAntisymmetric(a: WordEntry, b: WordEntry)
    ensures CompareWordFrequency(b, a) == -CompareWordFrequency(a, b)
  {
    StrcmpSwap(a.word, b.word);
  }

  /** Two entries with NUL-free words compare equal exactly when they are the same entry. */
  lemma CompareZero(a: WordEntry, b: WordEntry)
    requires NoNul(a.word) && NoNul(b.word)
    ensures CompareWordFrequency(a, b) == 0 <==> a == b
  {
    StrcmpZero(a.word, b.word);
  }

  /** The order the comparison defines is transitive, so sorting with it is well defined. */
  lemma CompareTransitive(a: WordEntry, b: WordEntry, c: WordEntry)
    requires NoNul(a.word) && NoNul(b.word) && NoNul(c.word)
    requires CompareWordFrequency(a, b) < 0 && CompareWordFrequency(b, c) < 0
    ensures CompareWordFrequency(a, c) < 0
  {
    if a.frequency == b.frequency == c.frequency {
      StrcmpTransitive(a.word, b.word, c.word);
    }
  }
}
