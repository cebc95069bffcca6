/** A bitmap abstractly: a sequence of flags scanned in ascending order. */
module BitSpec {
  import opened Wrappers

  /** The first clear flag of s at or after i, or |s|. */
  function FirstClear(s: seq<bool>, i: nat := 0): (k: nat)
    requires i <= |s|
    ensures i <= k <= |s|
    ensures forall j | i <= j < k :: s[j]
    ensures k < |s| ==> !s[k]
    decreases |s| - i
  {
    if i == |s| || !s[i] then i else FirstClear(s, i + 1)
  }

  lemma FirstClearUnique(s: seq<bool>, k: nat)
    requires k <= |s|
    requires forall j | 0 <= j < k :: s[j]
    requires k < |s| ==> !s[k]
    ensures FirstClear(s) == k
  {
    var f := FirstClear(s);
    if f < k { assert false; }
    if k < f { assert false; }
  }

  function CountSet(s: seq<bool>): nat
  {
    if s == [] then 0 else CountSet(s[..|s| - 1]) + if s[|s| - 1] then 1 else 0
  }

  lemma {:induction false} CountSetBound(s: seq<bool>)
    ensures CountSet(s) <= |s|
  {
    if s != [] { CountSetBound(s[..|s| - 1]); }
  }

  lemma {:induction false} CountSetStep(s: seq<bool>, n: nat)
    requires n < |s|
    ensures CountSet(s[..n + 1]) == CountSet(s[..n]) + if s[n] then 1 else 0
  {
    assert s[..n + 1][..n] == s[..n];
  }

  /** The identifiers whose flags are set, flag 0 standing for `start`. */
  ghost function Marked(s: seq<bool>, start: nat): set<nat>
  {
    set v | start <= v < start + |s| && FlagAt(s, start, v)
  }

  predicate FlagAt(s: seq<bool>, start: nat, v: nat)
    requires start <= v < start + |s|
  {
    s[v - start]
  }

  predicate InRange(v: nat, lo: nat, n: nat) { lo <= v < lo + n }

  /** The n identifiers from lo on. */
  ghost function Range(lo: nat, n: nat): set<nat>
  {
    set v | lo <= v < lo + n && InRange(v, lo, n)
  }

  lemma {:induction false} RangeSize(lo: nat, n: nat)
    ensures |Range(lo, n)| == n
  {
    if n > 0 {
      RangeSize(lo, n - 1);
      assert Range(lo, n) == Range(lo, n - 1) + {lo + n - 1};
    }
  }

  /** The number of set flags is the number of marked identifiers. */
  lemma {:induction false} CountSetIsCardinality(s: seq<bool>, start: nat)
    ensures CountSet(s) == |Marked(s, start)|
  {
    if s == [] {
      assert Marked(s, start) == {};
    } else {
      var t := s[..|s| - 1];
      CountSetIsCardinality(t, start);
      var v := start + |t|;
      if s[|t|] {
        assert Marked(s, start) == Marked(t, start) + {v};
      } else {
        assert Marked(s, start) == Marked(t, start);
      }
    }
  }
}

/** The image engine's bitmap: bytes in blocks, scanned bit by bit. */
module BitScan {
  import opened Wrappers
  import opened Layout
  import opened Bits
  import opened BitSpec

  const BITS_PER_BLOCK := 8192

  function BitOf(blocks: seq<Block>, i: nat): bool
    requires i < BITS_PER_BLOCK * |blocks|
  {
    TestBit(blocks[i / 8192][i / 8 % 1024], i % 8)
  }

  function FlagsOf(blocks: seq<Block>, n: nat): (s: seq<bool>)
    requires n <= BITS_PER_BLOCK * |blocks|
    ensures |s| == n && forall i | 0 <= i < n :: s[i] == BitOf(blocks, i)
  {
    seq(n, i requires 0 <= i < n => BitOf(blocks, i))
  }

  /** Which byte and which bit of it hold flag i decide i. */
  lemma SamePosition(i: nat, j: nat)
    ensures i / 8192 == j / 8192 && i / 8 % 1024 == j / 8 % 1024 && i % 8 == j % 8 <==> i == j
  {
    assert i / 8 == i / 8192 * 1024 + i / 8 % 1024;
    assert j / 8 == j / 8192 * 1024 + j / 8 % 1024;
  }

  function PutByte(blocks: seq<Block>, i: nat, x: U8): (r: seq<Block>)
    requires i < BITS_PER_BLOCK * |blocks|
    ensures |r| == |blocks|
  {
    blocks[i / 8192 := blocks[i / 8192][i / 8 % 1024 := x]]
  }

  /** Replacing one byte by one that differs only in bit i % 8 changes flag i alone. */
  lemma PutByteFlags(blocks: seq<Block>, i: nat, x: U8, v: bool, n: nat)
    requires i < n <= BITS_PER_BLOCK * |blocks|
    requires forall k: nat :: TestBit(x, k) == if k == i % 8 then v else TestBit(blocks[i / 8192][i / 8 % 1024], k)
    ensures FlagsOf(PutByte(blocks, i, x), n) == FlagsOf(blocks, n)[i := v]
  {
    var r := PutByte(blocks, i, x);
    forall j | 0 <= j < n ensures FlagsOf(r, n)[j] == FlagsOf(blocks, n)[i := v][j] {
      SamePosition(i, j);
    }
  }

  class Bitmap {
    const startIndex: nat
    const bitCount: nat
    var blocks: seq<Block>

    ghost predicate Valid()
      reads this
    {
      bitCount <= BITS_PER_BLOCK * |blocks|
    }

    /** Every flag of every block, those past bitCount included. */
    ghost function AllFlags(): (s: seq<bool>)
      requires Valid()
      reads this
    {
      FlagsOf(blocks, BITS_PER_BLOCK * |blocks|)
    }

    ghost function Flags(): (s: seq<bool>)
      requires Valid()
      reads this
      ensures |s| == bitCount
    {
      AllFlags()[..bitCount]
    }

    /** The allocated identifiers. */
    ghost function Used(): set<nat>
      requires Valid()
      reads this
    {
      Marked(Flags(), startIndex)
    }

    lemma UsedRange()
      requires Valid()
      ensures forall v | v in Used() :: startIndex <= v < startIndex + bitCount
    {
    }

    constructor Empty(startIndex: nat, bitCount: nat)
      ensures Valid() && this.startIndex == startIndex && this.bitCount == bitCount
      ensures |blocks| == BitmapBlocks(Max(bitCount, 1))
      ensures Used() == {}
    {
      this.startIndex, this.bitCount := startIndex, bitCount;
      blocks := seq(BitmapBlocks(Max(bitCount, 1)), _ => ZeroBlock);
      new;
      ZeroBits();
    }

    constructor FromBlocks(startIndex: nat, bitCount: nat, blocks: seq<Block>)
      requires bitCount <= BITS_PER_BLOCK * |blocks|
      ensures Valid() && this.startIndex == startIndex && this.bitCount == bitCount
      ensures this.blocks == blocks
    {
      this.startIndex, this.bitCount, this.blocks := startIndex, bitCount, blocks;
    }

    predicate IsSet(value: nat)
      requires Valid()
      reads this
      ensures IsSet(value) <==> value in Used()
    {
      startIndex <= value && value - startIndex < bitCount && BitOf(blocks, value - startIndex)
    }

    method Set(value: nat)
      requires Valid() && startIndex <= value < startIndex + bitCount
      modifies this
      ensures Valid() && |blocks| == old(|blocks|)
      ensures AllFlags() == old(AllFlags())[value - startIndex := true]
      ensures Used() == old(Used()) + {value}
    {
      var i := value - startIndex;
      var byte := blocks[i / 8192][i / 8 % 1024];
      ByteFits(byte);
      ByteFits(SetBit(byte, i % 8));
      PutByteFlags(blocks, i, SetBit(byte, i % 8), true, BITS_PER_BLOCK * |blocks|);
      blocks := PutByte(blocks, i, SetBit(byte, i % 8));
    }

    method Clear(value: nat)
      requires Valid() && startIndex <= value < startIndex + bitCount
      modifies this
      ensures Valid() && |blocks| == old(|blocks|)
      ensures AllFlags() == old(AllFlags())[value - startIndex := false]
      ensures Used() == old(Used()) - {value}
    {
      var i := value - startIndex;
      var byte := blocks[i / 8192][i / 8 % 1024];
      ByteFits(byte);
      ByteFits(ClearBit(byte, i % 8));
      PutByteFlags(blocks, i, ClearBit(byte, i % 8), false, BITS_PER_BLOCK * |blocks|);
      blocks := PutByte(blocks, i, ClearBit(byte, i % 8));
    }

    /** Marks and returns the first free identifier; none means every flag is set. */
    method Alloc() returns (r: Option<nat>)
      requires Valid()
      modifies this
      ensures Valid() && |blocks| == old(|blocks|)
      ensures var k := FirstClear(old(Flags()));
        if k == bitCount then r == None && AllFlags() == old(AllFlags())
        else r == Some(startIndex + k) && AllFlags() == old(AllFlags())[k := true]
      ensures match r
        case None => Used() == old(Used()) == Range(startIndex, bitCount) && blocks == old(blocks)
        case Some(v) =>
          && v !in old(Used()) && startIndex <= v < startIndex + bitCount && Used() == old(Used()) + {v}
          && forall u | startIndex <= u < v :: u in old(Used())
    {
      for relative := 0 to bitCount
        invariant Valid() && blocks == old(blocks)
        invariant forall j | 0 <= j < relative :: Flags()[j]
      {
        var value := startIndex + relative;
        if !IsSet(value) {
          assert !Flags()[relative];
          FirstClearUnique(Flags(), relative);
          Set(value);
          return Some(value);
        }
        assert value in Used();
      }
      FirstClearUnique(Flags(), bitCount);
      return None;
    }

    /** The number of free identifiers. */
    method CountFree() returns (n: nat)
      requires Valid()
      ensures n == bitCount - CountSet(Flags())
      ensures n == bitCount - |Used()|
    {
      n := 0;
      for relative := 0 to bitCount
        invariant n == relative - CountSet(Flags()[..relative])
      {
        CountSetStep(Flags(), relative);
        if !IsSet(startIndex + relative) {
          assert startIndex + relative !in Used();
          n := n + 1;
        } else {
          assert startIndex + relative in Used();
        }
      }
      assert Flags()[..bitCount] == Flags();
      CountSetIsCardinality(Flags(), startIndex);
    }
  }
}

/** The kernel's bitmap: the same blocks read as 64-bit words and scanned word by word. */
module WordScan {
  import opened Wrappers
  import opened Bits
  import opened BitSpec

  const BITS_PER_BLOCK := 8192
  const BITS_PER_WORD := 64
  const WORDS_PER_BLOCK := 128

  type U64 = x: nat | x < 0x1_0000_0000_0000_0000

  type WordBlock = b: seq<U64> | |b| == WORDS_PER_BLOCK witness seq(WORDS_PER_BLOCK, _ => 0)

  /** `(block_slot, word_in_block)` of a global word index. */
  function SplitWordIndex(w: nat): (nat, nat) { (w / WORDS_PER_BLOCK, w % WORDS_PER_BLOCK) }

  function WordAt(blocks: seq<WordBlock>, w: nat): U64
    requires w < WORDS_PER_BLOCK * |blocks|
  {
    blocks[SplitWordIndex(w).0][SplitWordIndex(w).1]
  }

  function WordsOf(blocks: seq<WordBlock>): (ws: seq<U64>)
    ensures |ws| == WORDS_PER_BLOCK * |blocks|
    ensures forall w | 0 <= w < |ws| :: ws[w] == WordAt(blocks, w)
  {
    seq(WORDS_PER_BLOCK * |blocks|, w requires 0 <= w < WORDS_PER_BLOCK * |blocks| => WordAt(blocks, w))
  }

  function WordFlags(ws: seq<U64>, n: nat): (s: seq<bool>)
    requires n <= BITS_PER_WORD * |ws|
    ensures |s| == n
  {
    seq(n, i requires 0 <= i < n => TestBit(ws[i / 64], i % 64))
  }

  /** A word with a clear bit: its lowest clear bit, found in the complement. */
  lemma LowestClear(word: U64)
    requires Complement(word, 64) > 0
    ensures var k := TrailingZeros(Complement(word, 64));
      k < 64 && !TestBit(word, k) && forall j: nat :: j < k ==> TestBit(word, j)
  {
    var k := TrailingZeros(Complement(word, 64));
    assert TestBit(Complement(word, 64), k);
    forall j: nat | j < k ensures TestBit(word, j) {
      assert !TestBit(Complement(word, 64), j);
    }
  }

  lemma FullWord(word: U64)
    requires Complement(word, 64) == 0
    ensures forall j: nat :: j < 64 ==> TestBit(word, j)
  {
    ZeroBits();
    assert forall j: nat :: !TestBit(Complement(word, 64), j);
  }

  lemma FlagsUpdate(ws: seq<U64>, n: nat, i: nat, x: U64, v: bool)
    requires i < n <= BITS_PER_WORD * |ws|
    requires forall k: nat :: TestBit(x, k) == if k == i % 64 then v else TestBit(ws[i / 64], k)
    ensures WordFlags(ws[i / 64 := x], n) == WordFlags(ws, n)[i := v]
  {
  }

  class Bitmap {
    const baseId: nat
    const bitCount: nat
    var blocks: seq<WordBlock>

    ghost predicate Valid()
      reads this
    {
      bitCount <= BITS_PER_BLOCK * |blocks|
    }

    ghost function AllFlags(): (s: seq<bool>)
      requires Valid()
      reads this
    {
      WordFlags(WordsOf(blocks), BITS_PER_BLOCK * |blocks|)
    }

    ghost function Flags(): (s: seq<bool>)
      requires Valid()
      reads this
      ensures |s| == bitCount
    {
      AllFlags()[..bitCount]
    }

    /** Takes over the loaded blocks and marks bit 0 as permanently occupied. */
    constructor (baseId: nat, blocks: seq<WordBlock>, bitCount: nat)
      requires 0 < |blocks| && bitCount <= BITS_PER_BLOCK * |blocks|
      ensures Valid() && this.baseId == baseId && this.bitCount == bitCount
      ensures |this.blocks| == |blocks|
      ensures AllFlags() == WordFlags(WordsOf(blocks), BITS_PER_BLOCK * |blocks|)[0 := true]
    {
      this.baseId, this.bitCount := baseId, bitCount;
      this.blocks := blocks;
      new;
      WordRange(blocks[0][0]);
      WordRange(SetBit(blocks[0][0], 0));
      FlagsUpdate(WordsOf(blocks), BITS_PER_BLOCK * |blocks|, 0, SetBit(blocks[0][0], 0), true);
      ModifyWord(0, SetBit(blocks[0][0], 0));
    }

    method ModifyWord(w: nat, x: U64)
      requires Valid() && w < WORDS_PER_BLOCK * |blocks|
      modifies this
      ensures |blocks| == old(|blocks|) && Valid()
      ensures WordsOf(blocks) == old(WordsOf(blocks))[w := x]
    {
      var (slot, index) := SplitWordIndex(w);
      blocks := blocks[slot := blocks[slot][index := x]];
      forall v | 0 <= v < |WordsOf(blocks)|
        ensures WordsOf(blocks)[v] == old(WordsOf(blocks))[w := x][v]
      {
        if v != w { assert SplitWordIndex(v) != SplitWordIndex(w); }
      }
    }

    /** `modify_word(w, |word| *word |= 1 << k)`, or the clearing form. */
    method PutBit(w: nat, k: nat, v: bool)
      requires Valid() && w < WORDS_PER_BLOCK * |blocks| && k < 64
      modifies this
      ensures Valid() && |blocks| == old(|blocks|)
      ensures AllFlags() == old(AllFlags())[64 * w + k := v]
    {
      var word := WordAt(blocks, w);
      var x := if v then SetBit(word, k) else ClearBit(word, k);
      WordRange(word);
      WordRange(x);
      assert (64 * w + k) / 64 == w && (64 * w + k) % 64 == k;
      FlagsUpdate(WordsOf(blocks), BITS_PER_BLOCK * |blocks|, 64 * w + k, x, v);
      ModifyWord(w, x);
    }

    /** Scans words for one with a clear bit and takes its lowest clear bit. */
    method Alloc() returns (r: Option<nat>)
      requires Valid()
      modifies this
      ensures Valid() && |blocks| == old(|blocks|)
      ensures var k := FirstClear(old(Flags()));
        if k == bitCount then r == None && AllFlags() == old(AllFlags())
        else r == Some(baseId + k) && AllFlags() == old(AllFlags())[k := true]
    {
      hide WordFlags, TestBit, WordAt, Complement, TrailingZeros;
      var totalWords := (bitCount + 63) / BITS_PER_WORD;
      ghost var flags := WordFlags(WordsOf(blocks), bitCount);
      FlagsPrefix(WordsOf(blocks), bitCount, BITS_PER_BLOCK * |blocks|);
      for wordIndex := 0 to totalWords
        invariant blocks == old(blocks)
        invariant forall i | 0 <= i < bitCount && i < 64 * wordIndex :: flags[i]
      {
        var word := WordAt(blocks, wordIndex);
        var free := Complement(word, 64);
        if free == 0 {
          FullWordFlags(WordsOf(blocks), bitCount, wordIndex);
          continue;
        }
        var bitInWord := TrailingZeros(free);
        var bit := wordIndex * BITS_PER_WORD + bitInWord;
        FirstClearInWord(WordsOf(blocks), bitCount, wordIndex);
        if bit >= bitCount {
          return None;
        }
        PutBit(wordIndex, bitInWord, true);
        return Some(baseId + bit);
      }
      FirstClearUnique(Flags(), bitCount);
      return None;
    }

    method Dealloc(id: nat)
      requires Valid() && baseId <= id < baseId + bitCount
      modifies this
      ensures Valid() && |blocks| == old(|blocks|)
      ensures AllFlags() == old(AllFlags())[id - baseId := false]
    {
      var bit := id - baseId;
      PutBit(bit / BITS_PER_WORD, bit % BITS_PER_WORD, false);
    }

    /** Counts whole words by their ones and the tail word under a mask. */
    method CountFree() returns (n: nat)
      requires Valid()
      ensures n == bitCount - CountSet(Flags())
    {
      hide TestBit, CountOnes, LowPart, WordFlags, WordsOf, WordAt;
      var fullWords, remaining := bitCount / BITS_PER_WORD, bitCount % BITS_PER_WORD;
      var used := 0;
      ghost var flags := WordFlags(WordsOf(blocks), bitCount);
      FlagsPrefix(WordsOf(blocks), bitCount, BITS_PER_BLOCK * |blocks|);
      for w := 0 to fullWords
        invariant used == CountSet(flags[..64 * w])
      {
        CountFullWord(WordsOf(blocks), bitCount, w);
        used := used + CountOnes(WordAt(blocks, w));
      }
      if remaining > 0 {
        CountTail(WordsOf(blocks), bitCount, fullWords, remaining);
        used := used + CountOnes(LowPart(WordAt(blocks, fullWords), remaining));
      }
      assert flags[..bitCount] == flags;
      CountSetBound(flags);
      n := bitCount - used;
    }
  }

  lemma FlagsPrefix(ws: seq<U64>, n: nat, m: nat)
    requires n <= m <= BITS_PER_WORD * |ws|
    ensures WordFlags(ws, n) == WordFlags(ws, m)[..n]
  {
  }

  lemma CountFullWord(ws: seq<U64>, n: nat, w: nat)
    requires n <= BITS_PER_WORD * |ws| && 64 * w + 64 <= n && w < |ws|
    ensures CountSet(WordFlags(ws, n)[..64 * (w + 1)]) == CountSet(WordFlags(ws, n)[..64 * w]) + CountOnes(ws[w])
  {
    CountWord(ws, n, w, 64);
    WordRange(ws[w]);
    CountOnesBelow(ws[w], 64);
    assert 64 * (w + 1) == 64 * w + 64;
  }

  lemma CountTail(ws: seq<U64>, n: nat, w: nat, k: nat)
    requires n <= BITS_PER_WORD * |ws| && k < 64 && 64 * w + k == n && w < |ws|
    ensures CountSet(WordFlags(ws, n)[..n]) == CountSet(WordFlags(ws, n)[..64 * w]) + CountOnes(LowPart(ws[w], k))
  {
    CountWord(ws, n, w, k);
    CountOnesBelow(LowPart(ws[w], k), k);
    OnesBelowAgree(LowPart(ws[w], k), ws[w], k);
  }

  /** A word without a clear bit contributes only set flags. */
  lemma FullWordFlags(ws: seq<U64>, n: nat, w: nat)
    requires n <= BITS_PER_WORD * |ws| && w < |ws| && Complement(ws[w], 64) == 0
    ensures forall i | 0 <= i < n && 64 * w <= i < 64 * w + 64 :: WordFlags(ws, n)[i]
  {
    FullWord(ws[w]);
    forall i | 0 <= i < n && 64 * w <= i < 64 * w + 64 ensures WordFlags(ws, n)[i] {
      assert i / 64 == w && i % 64 < 64;
    }
  }

  /** The first word with a clear bit holds the first clear flag. */
  lemma FirstClearInWord(ws: seq<U64>, n: nat, w: nat)
    requires n <= BITS_PER_WORD * |ws| && w < |ws| && 64 * w < n
    requires Complement(ws[w], 64) > 0
    requires forall i | 0 <= i < n && i < 64 * w :: WordFlags(ws, n)[i]
    ensures TrailingZeros(Complement(ws[w], 64)) < 64
    ensures FirstClear(WordFlags(ws, n)) == Min(n, 64 * w + TrailingZeros(Complement(ws[w], 64)))
  {
    LowestClear(ws[w]);
    var k := TrailingZeros(Complement(ws[w], 64));
    forall i | 64 * w <= i < 64 * w + k && i < n ensures WordFlags(ws, n)[i] {
      assert i / 64 == w && i % 64 < k;
    }
    assert (64 * w + k) / 64 == w && (64 * w + k) % 64 == k;
    FirstClearUnique(WordFlags(ws, n), Min(n, 64 * w + k));
  }

  lemma {:induction false} OnesBelowAgree(x: nat, y: nat, n: nat)
    requires forall j: nat :: j < n ==> TestBit(x, j) == TestBit(y, j)
    ensures OnesBelow(x, n) == OnesBelow(y, n)
  {
    if n > 0 { OnesBelowAgree(x, y, n - 1); }
  }

  /** The flags of word w add as many as the word has ones. */
  lemma {:induction false} CountWord(ws: seq<U64>, n: nat, w: nat, k: nat)
    requires n <= BITS_PER_WORD * |ws| && k <= 64 && 64 * w + k <= n && w < |ws|
    ensures CountSet(WordFlags(ws, n)[..64 * w + k]) == CountSet(WordFlags(ws, n)[..64 * w]) + OnesBelow(ws[w], k)
  {
    hide TestBit, CountSet;
    if k > 0 {
      CountWord(ws, n, w, k - 1);
      CountSetStep(WordFlags(ws, n), 64 * w + k - 1);
      assert (64 * w + k - 1) / 64 == w && (64 * w + k - 1) % 64 == k - 1;
    }
  }
}

/** Both bitmaps over the same bytes behave alike. */
module BitmapAgreement {
  import opened Wrappers
  import opened Layout
  import opened Bits
  import opened BitSpec
  import BitScan
  import WordScan

  /** Word w of a word block is the little-endian value of bytes 8w..8w+8. */
  ghost predicate SameBlock(b: Block, wb: WordScan.WordBlock)
  {
    forall w | 0 <= w < WordScan.WORDS_PER_BLOCK :: wb[w] == WordOf(b[8 * w..8 * w + 8])
  }

  ghost predicate SameBytes(blocks: seq<Block>, wblocks: seq<WordScan.WordBlock>)
  {
    |blocks| == |wblocks| && forall k | 0 <= k < |blocks| :: SameBlock(blocks[k], wblocks[k])
  }

  lemma BlockBit(b: Block, wb: WordScan.WordBlock, i: nat)
    requires SameBlock(b, wb) && i < 8192
    ensures TestBit(b[i / 8], i % 8) == TestBit(wb[i / 64], i % 64)
  {
    var bytes := b[8 * (i / 64)..8 * (i / 64) + 8];
    WordBit(bytes, i % 64);
    assert 8 * (i / 64) + i % 64 / 8 == i / 8;
    assert bytes[i % 64 / 8] == b[i / 8];
    assert i % 64 % 8 == i % 8;
  }

  /** Where flag i sits, in bytes and in words. */
  lemma Positions(i: nat)
    ensures i % 8192 / 8 == i / 8 % 1024 && i % 8192 / 64 == i / 64 % 128
    ensures i % 8192 % 8 == i % 8 && i % 8192 % 64 == i % 64 && i / 64 / 128 == i / 8192
  {
    var k, r := i / 8192, i % 8192;
    var w, j := r / 64, r % 64;
    InWord(k, w, j);
  }

  lemma SameFlag(blocks: seq<Block>, wblocks: seq<WordScan.WordBlock>, i: nat)
    requires SameBytes(blocks, wblocks) && i < 8192 * |blocks|
    ensures BitScan.BitOf(blocks, i) == TestBit(WordScan.WordAt(wblocks, i / 64), i % 64)
  {
    Positions(i);
    BlockBit(blocks[i / 8192], wblocks[i / 8192], i % 8192);
  }

  /** The flag sequences the two scans work on are the same. */
  lemma SameFlags(blocks: seq<Block>, wblocks: seq<WordScan.WordBlock>)
    requires SameBytes(blocks, wblocks)
    ensures BitScan.FlagsOf(blocks, 8192 * |blocks|) == WordScan.WordFlags(WordScan.WordsOf(wblocks), 8192 * |blocks|)
  {
    forall i | 0 <= i < 8192 * |blocks|
      ensures BitScan.BitOf(blocks, i) == TestBit(WordScan.WordAt(wblocks, i / 64), i % 64)
    {
      SameFlag(blocks, wblocks, i);
    }
  }

  /** One word and the eight bytes behind it, given that their flags agree. */
  lemma SameWord(blocks: seq<Block>, wblocks: seq<WordScan.WordBlock>, k: nat, w: nat)
    requires |blocks| == |wblocks| && k < |blocks| && w < 128
    requires BitScan.FlagsOf(blocks, 8192 * |blocks|) == WordScan.WordFlags(WordScan.WordsOf(wblocks), 8192 * |blocks|)
    ensures wblocks[k][w] == WordOf(blocks[k][8 * w..8 * w + 8])
  {
    var bytes := blocks[k][8 * w..8 * w + 8];
    var word := wblocks[k][w];
    forall j: nat | j < 64 ensures TestBit(word, j) == TestBit(WordOf(bytes), j) {
      var i := 8192 * k + 64 * w + j;
      WordBit(bytes, j);
      InWord(k, w, j);
      assert BitScan.FlagsOf(blocks, 8192 * |blocks|)[i] == BitScan.BitOf(blocks, i);
      assert WordScan.WordFlags(WordScan.WordsOf(wblocks), 8192 * |blocks|)[i] == TestBit(WordScan.WordAt(wblocks, i / 64), i % 64);
      assert bytes[j / 8] == blocks[k][8 * w + j / 8];
    }
    WordRange(word);
    WordFits(bytes);
    BitsDetermine(word, WordOf(bytes), 64);
  }

  lemma InWord(k: nat, w: nat, j: nat)
    requires w < 128 && j < 64
    ensures var i := 8192 * k + 64 * w + j;
      i / 8192 == k && i / 8 % 1024 == 8 * w + j / 8 && i % 8 == j % 8
      && i / 64 / 128 == k && i / 64 % 128 == w && i % 64 == j
  {
    var i := 8192 * k + 64 * w + j;
    assert i / 64 == 128 * k + w;
    assert i / 8 == 1024 * k + 8 * w + j / 8;
  }

  /** Equal flags mean equal bytes. */
  lemma SameFlagsSameBytes(blocks: seq<Block>, wblocks: seq<WordScan.WordBlock>)
    requires |blocks| == |wblocks|
    requires BitScan.FlagsOf(blocks, 8192 * |blocks|) == WordScan.WordFlags(WordScan.WordsOf(wblocks), 8192 * |blocks|)
    ensures SameBytes(blocks, wblocks)
  {
    forall k, w | 0 <= k < |blocks| && 0 <= w < 128
      ensures wblocks[k][w] == WordOf(blocks[k][8 * w..8 * w + 8])
    {
      SameWord(blocks, wblocks, k, w);
    }
  }

  datatype Op = Take | Give(id: nat)

  ghost predicate Alike(a: BitScan.Bitmap, k: WordScan.Bitmap)
    reads a, k
  {
    && a.Valid() && k.Valid()
    && a.startIndex == k.baseId && a.bitCount == k.bitCount
    && SameBytes(a.blocks, k.blocks)
  }

  lemma AlikeFlags(a: BitScan.Bitmap, k: WordScan.Bitmap)
    requires Alike(a, k)
    ensures a.AllFlags() == k.AllFlags() && a.Flags() == k.Flags()
  {
    SameFlags(a.blocks, k.blocks);
  }

  lemma FlagsAlike(a: BitScan.Bitmap, k: WordScan.Bitmap)
    requires a.Valid() && k.Valid() && a.startIndex == k.baseId && a.bitCount == k.bitCount
    requires |a.blocks| == |k.blocks| && a.AllFlags() == k.AllFlags()
    ensures Alike(a, k)
  {
    SameFlagsSameBytes(a.blocks, k.blocks);
  }

  /** What an operation does to the flags, of which the first n are identifiers, and what it
      hands out: the first clear flag, if there is one. */
  function FlagsAfter(flags: seq<bool>, start: nat, n: nat, op: Op): (r: seq<bool>)
    requires n <= |flags|
    ensures |r| == |flags|
  {
    match op
    case Take => if FirstClear(flags[..n]) < n then flags[FirstClear(flags[..n]) := true] else flags
    case Give(id) => if start <= id < start + n then flags[id - start := false] else flags
  }

  function HandedOut(flags: seq<bool>, start: nat, n: nat, op: Op): seq<Option<nat>>
    requires n <= |flags|
  {
    match op
    case Take => [if FirstClear(flags[..n]) < n then Some(start + FirstClear(flags[..n])) else None]
    case Give(_) => []
  }

  function FlagsRun(flags: seq<bool>, start: nat, n: nat, ops: seq<Op>): (r: seq<bool>)
    requires n <= |flags|
    ensures |r| == |flags|
  {
    if ops == [] then flags
    else FlagsAfter(FlagsRun(flags, start, n, ops[..|ops| - 1]), start, n, ops[|ops| - 1])
  }

  /** The identifiers a run hands out, in order. */
  function HandedRun(flags: seq<bool>, start: nat, n: nat, ops: seq<Op>): seq<Option<nat>>
    requires n <= |flags|
  {
    if ops == [] then []
    else
      var before := ops[..|ops| - 1];
      HandedRun(flags, start, n, before) + HandedOut(FlagsRun(flags, start, n, before), start, n, ops[|ops| - 1])
  }

  /** The step after some operations of a run hands out this identifier. */
  predicate HandsOut(flags: seq<bool>, start: nat, n: nat, ops: seq<Op>, k: nat, id: nat)
    requires n <= |flags|
  {
    k < |ops| && ops[k].Take? && HandedOut(FlagsRun(flags, start, n, ops[..k]), start, n, ops[k]) == [Some(id)]
  }

  /** An identifier that was handed out is marked, and not handed out again, until it is
      given back. */
  lemma {:induction false} HeldUntilGiven(flags: seq<bool>, start: nat, n: nat, ops: seq<Op>, k: nat, m: nat, id: nat)
    requires n <= |flags| && k < m <= |ops| && HandsOut(flags, start, n, ops, k, id)
    requires forall j | k < j < m :: ops[j] != Give(id)
    ensures start <= id < start + n && FlagsRun(flags, start, n, ops[..m])[id - start]
    ensures !HandsOut(flags, start, n, ops, m, id)
    decreases m
  {
    hide FlagsRun, FlagsAfter, HandedOut;
    RunSnoc(flags, start, n, ops, m - 1);
    if m > k + 1 { HeldUntilGiven(flags, start, n, ops, k, m - 1, id); }
    StepHolds(FlagsRun(flags, start, n, ops[..m - 1]), start, n, ops[m - 1], id);
    StillMarked(FlagsRun(flags, start, n, ops[..m]), start, n, id);
  }

  lemma StepHolds(flags: seq<bool>, start: nat, n: nat, op: Op, id: nat)
    requires n <= |flags| && op != Give(id)
    requires (start <= id < start + n && flags[id - start]) || (op.Take? && HandedOut(flags, start, n, op) == [Some(id)])
    ensures start <= id < start + n && FlagsAfter(flags, start, n, op)[id - start]
  {
  }

  lemma StillMarked(flags: seq<bool>, start: nat, n: nat, id: nat)
    requires n <= |flags| && start <= id < start + n && flags[id - start]
    ensures HandedOut(flags, start, n, Take) != [Some(id)]
  {
  }

  lemma RunSnoc(flags: seq<bool>, start: nat, n: nat, ops: seq<Op>, i: nat)
    requires n <= |flags| && i < |ops|
    ensures var f := FlagsRun(flags, start, n, ops[..i]);
      && FlagsRun(flags, start, n, ops[..i + 1]) == FlagsAfter(f, start, n, ops[i])
      && HandedRun(flags, start, n, ops[..i + 1]) == HandedRun(flags, start, n, ops[..i]) + HandedOut(f, start, n, ops[i])
  {
    assert ops[..i + 1][..i] == ops[..i];
  }

  method TakeAgrees(a: BitScan.Bitmap, k: WordScan.Bitmap) returns (x: Option<nat>, y: Option<nat>)
    requires Alike(a, k)
    modifies a, k
    ensures Alike(a, k) && |a.AllFlags()| == old(|a.AllFlags()|)
    ensures [x] == [y] == HandedOut(old(a.AllFlags()), a.startIndex, a.bitCount, Take)
    ensures a.AllFlags() == FlagsAfter(old(a.AllFlags()), a.startIndex, a.bitCount, Take)
  {
    AlikeFlags(a, k);
    x := a.Alloc();
    y := k.Alloc();
    FlagsAlike(a, k);
  }

  method GiveAgrees(a: BitScan.Bitmap, k: WordScan.Bitmap, id: nat)
    requires Alike(a, k)
    requires a.startIndex <= id < a.startIndex + a.bitCount
    modifies a, k
    ensures Alike(a, k) && a.AllFlags() == FlagsAfter(old(a.AllFlags()), a.startIndex, a.bitCount, Give(id))
  {
    AlikeFlags(a, k);
    a.Clear(id);
    k.Dealloc(id);
    FlagsAlike(a, k);
  }

  /** Over the same bytes, any run of allocations and releases hands out the same
      identifiers from both bitmaps, each the first that is free at that time, and leaves
      the same bytes behind, with exactly the flags set that the run leaves set. */
  method RunAgrees(a: BitScan.Bitmap, k: WordScan.Bitmap, ops: seq<Op>)
    returns (fromBits: seq<Option<nat>>, fromWords: seq<Option<nat>>)
    requires Alike(a, k)
    requires forall i | 0 <= i < |ops| :: ops[i].Give? ==> a.startIndex <= ops[i].id < a.startIndex + a.bitCount
    modifies a, k
    ensures Alike(a, k) && a.AllFlags() == FlagsRun(old(a.AllFlags()), a.startIndex, a.bitCount, ops)
    ensures fromBits == fromWords == HandedRun(old(a.AllFlags()), a.startIndex, a.bitCount, ops)
  {
    hide SameBytes, FlagsAfter, HandedOut;
    fromBits, fromWords := [], [];
    ghost var flags := a.AllFlags();
    for i := 0 to |ops|
      invariant Alike(a, k) && a.AllFlags() == FlagsRun(flags, a.startIndex, a.bitCount, ops[..i])
      invariant fromBits == fromWords == HandedRun(flags, a.startIndex, a.bitCount, ops[..i])
    {
      RunSnoc(flags, a.startIndex, a.bitCount, ops, i);
      match ops[i] {
        case Take =>
          var x, y := TakeAgrees(a, k);
          fromBits, fromWords := fromBits + [x], fromWords + [y];
        case Give(id) =>
          GiveAgrees(a, k, id);
          NothingHanded(FlagsRun(flags, a.startIndex, a.bitCount, ops[..i]), a.startIndex, a.bitCount, id);
      }
    }
    assert ops[..|ops|] == ops;
  }

  lemma NothingHanded(flags: seq<bool>, start: nat, n: nat, id: nat)
    requires n <= |flags|
    ensures HandedOut(flags, start, n, Give(id)) == []
  {
  }

  /** Over the same bytes they count the same number of free identifiers: those in range
      that are not used. */
  method CountAgrees(a: BitScan.Bitmap, k: WordScan.Bitmap) returns (m: nat, n: nat)
    requires a.Valid() && k.Valid()
    requires a.bitCount == k.bitCount
    requires SameBytes(a.blocks, k.blocks)
    ensures m == n == a.bitCount - |a.Used()|
  {
    SameFlags(a.blocks, k.blocks);
    m := a.CountFree();
    n := k.CountFree();
  }
}
