/** Byte-wise XOR kernels that work one machine word (8 bytes) at a time.

    Memory is an `array<bv8>`; reading the word at byte offset `o` is taking
    the 8 bytes `a[o..o+8]`, and writing one is 8 byte stores. For the
    length-checked ("safe") kernels the array is the whole slice; for the
    "unsafe" kernels the array is the slice's backing buffer, its length is
    the slice's capacity, and the slice's length is the parameter `len`.

    The safe in-place kernels end with two words that may overlap: the word
    after the loop and the word ending at the last byte. Both are read before
    either is written, so the overlapping bytes are XORed once, not twice. */
module SimdXor {

  const BytesPerWord := 8
  /** log2(BytesPerWord); the source's `x >> Log2BytesPerWord` is `x / BytesPerWord` here. */
  const Log2BytesPerWord := 3
  /** The vector width the unsafe kernels' capacity assumption rounds to.
      It is defined outside the kernels; CapacityCoversWords shows that any
      power of two of at least BytesPerWord gives the bounds used here. */
  const BytesPerVec := 16

  type Word = w: seq<bv8> | |w| == 8 witness [0, 0, 0, 0, 0, 0, 0, 0]

  /** v is a power of two. */
  predicate IsPow2(v: nat)
    decreases v
  {
    v == 1 || (v >= 2 && v % 2 == 0 && IsPow2(v / 2))
  }

  /** ceil(x / d); the source computes it with a shift, for a power of
      two d. */
  function DivUpPow2(x: nat, d: nat): nat
    requires d > 0
  {
    (x + d - 1) / d
  }

  /** x rounded up to a multiple of `align`; the source computes it with a
      mask, for a power of two align. */
  function RoundUpPow2(x: nat, align: nat): nat
    requires align > 0
  {
    DivUpPow2(x, align) * align
  }

  /** A power of two is 1, 2, 4 or a multiple of 8. */
  lemma {:induction false} Pow2Small(v: nat)
    requires IsPow2(v)
    ensures v == 1 || v == 2 || v == 4 || v % 8 == 0
  {
    if v != 1 {
      Pow2Small(v / 2);
    }
  }

  /** DivUpPow2 is the least q with q * d >= x. */
  lemma DivUpBounds(x: nat, d: nat)
    requires d > 0
    ensures DivUpPow2(x, d) * d >= x
    ensures DivUpPow2(x, d) == 0 || (DivUpPow2(x, d) - 1) * d < x
  {
    var q := DivUpPow2(x, d);
    var m := (x + d - 1) % d;
    assert x + d - 1 == q * d + m && 0 <= m < d;
  }

  lemma BytesPerVecIsPow2()
    ensures IsPow2(BytesPerVec)
  {
  }

  /** With capacity at least RoundUpPow2(len + 1, vec) for a power of two
      vec >= BytesPerWord, the ceil(len / 8) words from offset 0, and the one
      word at offset 0, fit in the buffer. */
  lemma CapacityCoversWords(len: nat, vec: nat)
    requires IsPow2(vec) && vec >= BytesPerWord
    ensures RoundUpPow2(len + 1, vec) >= BytesPerWord * DivUpPow2(len, BytesPerWord)
    ensures RoundUpPow2(len + 1, vec) >= BytesPerWord
  {
    Pow2Small(vec);
    var c := vec / BytesPerWord;
    assert vec == BytesPerWord * c;
    var q := DivUpPow2(len + 1, vec);
    DivUpBounds(len + 1, vec);
    var j := q * c;
    assert RoundUpPow2(len + 1, vec) == BytesPerWord * j by {
      MulWordAssoc(q, c);
    }
    assert BytesPerWord * j >= len + 1;
    var k := DivUpPow2(len, BytesPerWord);
    DivUpBounds(len, BytesPerWord);
    assert k == 0 || BytesPerWord * (k - 1) < len;
  }

  /** Regrouping a product with the word size. */
  lemma MulWordAssoc(q: int, c: int)
    ensures q * (BytesPerWord * c) == BytesPerWord * (q * c)
  {
  }

  /** The word whose every byte is `val`, built as the source builds it. */
  function BroadcastWord(val: bv8): bv64
  {
    0x0101010101010101 * (val as bv64)
  }

  /** The lowest-addressed byte of a word in memory (little-endian). */
  function LowByte(w: bv64): bv8
  {
    (w & 0xFF) as bv8
  }

  /** Byte k of a word in memory order: byte k - 1 of the word shifted
      down by one byte. */
  function ByteOf(w: bv64, k: nat): bv8
    requires k < BytesPerWord
    decreases k
  {
    if k == 0 then LowByte(w) else ByteOf(w >> 8, k - 1)
  }

  /** The bytes of a word in memory order. */
  function WordBytes(w: bv64): Word
  {
    seq(8, k requires 0 <= k < 8 => ByteOf(w, k))
  }

  /** The low n bytes of w all equal val. */
  predicate RepeatsByte(w: bv64, val: bv8, n: nat)
    decreases n
  {
    n == 0 || (LowByte(w) == val && RepeatsByte(w >> 8, val, n - 1))
  }

  /** Each of the low n bytes of a word that repeats val is val. */
  lemma {:induction false} ByteOfRepeats(w: bv64, val: bv8, n: nat, k: nat)
    requires RepeatsByte(w, val, n) && k < n && k < BytesPerWord
    ensures ByteOf(w, k) == val
    decreases k
  {
    if k > 0 {
      ByteOfRepeats(w >> 8, val, n - 1, k - 1);
    }
  }

  /** Shifting a word of n copies of a byte down by one byte leaves n - 1
      copies. */
  lemma BroadcastShifts(v: bv64)
    requires v < 0x100
    ensures (0x0101010101010101 * v) >> 8 == 0x01010101010101 * v
    ensures (0x01010101010101 * v) >> 8 == 0x010101010101 * v
    ensures (0x010101010101 * v) >> 8 == 0x0101010101 * v
    ensures (0x0101010101 * v) >> 8 == 0x01010101 * v
    ensures (0x01010101 * v) >> 8 == 0x010101 * v
    ensures (0x010101 * v) >> 8 == 0x0101 * v
    ensures (0x0101 * v) >> 8 == v
  {
  }

  /** The low byte of a word of copies of val is val. */
  lemma BroadcastLowBytes(val: bv8)
    ensures var v := val as bv64;
      && LowByte(0x0101010101010101 * v) == val
      && LowByte(0x01010101010101 * v) == val
      && LowByte(0x010101010101 * v) == val
      && LowByte(0x0101010101 * v) == val
      && LowByte(0x01010101 * v) == val
      && LowByte(0x010101 * v) == val
      && LowByte(0x0101 * v) == val
      && LowByte(v) == val
  {
  }

  /** The broadcast word repeats val in all 8 bytes. */
  lemma BroadcastRepeats(val: bv8)
    ensures RepeatsByte(BroadcastWord(val), val, BytesPerWord)
  {
    var v := val as bv64;
    BroadcastShifts(v);
    BroadcastLowBytes(val);
    assert RepeatsByte(v, val, 1);
    assert RepeatsByte(0x0101 * v, val, 2);
    assert RepeatsByte(0x010101 * v, val, 3);
    assert RepeatsByte(0x01010101 * v, val, 4);
    assert RepeatsByte(0x0101010101 * v, val, 5);
    assert RepeatsByte(0x010101010101 * v, val, 6);
    assert RepeatsByte(0x01010101010101 * v, val, 7);
  }

  /** Every byte of the broadcast word is `val`. */
  lemma BroadcastBytes(val: bv8)
    ensures forall k :: 0 <= k < BytesPerWord ==> WordBytes(BroadcastWord(val))[k] == val
  {
    BroadcastRepeats(val);
    forall k | 0 <= k < BytesPerWord
      ensures WordBytes(BroadcastWord(val))[k] == val
    {
      ByteOfRepeats(BroadcastWord(val), val, BytesPerWord, k);
    }
  }

  /** The constant kernels' `argWord`: `val` in every byte. */
  method BroadcastArgWord(val: bv8) returns (argWord: Word)
    ensures forall k :: 0 <= k < BytesPerWord ==> argWord[k] == val
  {
    argWord := WordBytes(BroadcastWord(val));
    BroadcastBytes(val);
  }

  /** Exclusive or of two bytes. */
  function XorByte(a: bv8, b: bv8): bv8
  {
    a ^ b
  }

  /** XOR with the same byte twice gives back the original byte, which is
      what makes an XOR mask reversible. */
  lemma XorByteTwice(a: bv8, b: bv8)
    ensures XorByte(XorByte(a, b), b) == a
  {
  }

  /** What a byte holds after it is XORed again with a value that was
      already XORed into it, or that it was XORed into. */
  lemma XorByteReapplied(a: bv8, b: bv8)
    ensures XorByte(XorByte(a, b), b) == a
    ensures XorByte(a, XorByte(a, b)) == b
    ensures XorByte(XorByte(a, a), XorByte(a, a)) == XorByte(a, a)
  {
  }

  /** A word operation: byte-wise XOR of two words. */
  function XorWords(a: Word, b: Word): (r: Word)
    ensures forall k :: 0 <= k < BytesPerWord ==> r[k] == XorByte(a[k], b[k])
  {
    seq(8, k requires 0 <= k < 8 => XorByte(a[k], b[k]))
  }

  /** The low byte of an XOR is the XOR of the low bytes. */
  lemma LowByteXor(x: bv64, y: bv64)
    ensures LowByte(x ^ y) == XorByte(LowByte(x), LowByte(y))
  {
  }

  /** Shifting commutes with XOR. */
  lemma ShiftXor(x: bv64, y: bv64)
    ensures (x ^ y) >> 8 == (x >> 8) ^ (y >> 8)
  {
  }

  /** Byte k of the XOR of two machine words is the XOR of their bytes k. */
  lemma {:induction false} ByteOfXor(x: bv64, y: bv64, k: nat)
    requires k < BytesPerWord
    ensures ByteOf(x ^ y, k) == XorByte(ByteOf(x, k), ByteOf(y, k))
    decreases k
  {
    if k == 0 {
      LowByteXor(x, y);
    } else {
      ByteOfXor(x >> 8, y >> 8, k - 1);
      ByteOfXorStep(x, y, k);
    }
  }

  /** The inductive step of ByteOfXor: byte k of a word is byte k - 1 of
      the word shifted down by one byte, and the shift commutes with XOR. */
  lemma ByteOfXorStep(x: bv64, y: bv64, k: nat)
    requires 0 < k < BytesPerWord
    requires ByteOf((x >> 8) ^ (y >> 8), k - 1) == XorByte(ByteOf(x >> 8, k - 1), ByteOf(y >> 8, k - 1))
    ensures ByteOf(x ^ y, k) == XorByte(ByteOf(x, k), ByteOf(y, k))
  {
    ShiftXor(x, y);
  }

  /** XOR of two machine words, seen in memory, is the byte-wise XOR of
      their bytes: the word operation the kernels use is XorWords. */
  lemma WordXorBytes(x: bv64, y: bv64)
    ensures WordBytes(x ^ y) == XorWords(WordBytes(x), WordBytes(y))
  {
    forall k | 0 <= k < BytesPerWord
      ensures WordBytes(x ^ y)[k] == XorWords(WordBytes(x), WordBytes(y))[k]
    {
      ByteOfXor(x, y, k);
    }
  }

  /** Writes the word `w` at byte offset `o`. */
  method StoreWord(a: array<bv8>, o: nat, w: Word)
    requires o + BytesPerWord <= a.Length
    modifies a
    ensures forall i :: 0 <= i < a.Length ==> a[i] == if o <= i < o + BytesPerWord then w[i - o] else old(a[i])
  {
    forall k | 0 <= k < BytesPerWord {
      a[o + k] := w[k];
    }
  }

  /** Number of whole words the in-place kernels process in their loop
      before the two final words: (len - 9) >> 3 when len > 16, none
      otherwise. */
  function InplaceLoopWords(len: nat): nat
  {
    if len > 2 * BytesPerWord then (len - BytesPerWord - 1) / BytesPerWord else 0
  }

  /** For len >= 8, the word after the loop and the word ending at len both
      lie within [0, len) and together cover everything the loop left. */
  lemma InplaceTailFits(len: nat)
    requires len >= BytesPerWord
    ensures var it := BytesPerWord * InplaceLoopWords(len);
      it + BytesPerWord <= len <= it + 2 * BytesPerWord
  {
  }

  /** For len >= 8, the (len - 1) >> 3 loop words and the final word ending
      at len lie within [0, len) and cover it. */
  lemma CopyTailFits(len: nat)
    requires len >= BytesPerWord
    ensures var it := BytesPerWord * ((len - 1) / BytesPerWord);
      it <= len <= it + BytesPerWord
  {
  }

  // ---------------------------------------------------------------------
  // Word loops and final words shared by the kernels

  /** XORs arg into main one word at a time over the first nWords words;
      returns the offset the word iterators end at. main and arg may be the
      same array. */
  method XorWordsInplace(main: array<bv8>, arg: array<bv8>, nWords: nat) returns (it: nat)
    requires BytesPerWord * nWords <= main.Length && BytesPerWord * nWords <= arg.Length
    modifies main
    ensures it == BytesPerWord * nWords
    ensures forall i :: 0 <= i < it ==> main[i] == XorByte(old(main[i]), old(arg[i]))
    ensures forall i :: it <= i < main.Length ==> main[i] == old(main[i])
    ensures forall i :: it <= i < arg.Length ==> arg[i] == old(arg[i])
  {
    it := 0;
    var widx := 0;
    while widx < nWords
      invariant 0 <= widx <= nWords && it == BytesPerWord * widx
      invariant forall i :: 0 <= i < it ==> main[i] == XorByte(old(main[i]), old(arg[i]))
      invariant forall i :: it <= i < main.Length ==> main[i] == old(main[i])
      invariant forall i :: it <= i < arg.Length ==> arg[i] == old(arg[i])
    {
      var word := XorWords(main[it..it + BytesPerWord], arg[it..it + BytesPerWord]);
      assert forall k :: 0 <= k < BytesPerWord ==> word[k] == XorByte(old(main[it + k]), old(arg[it + k]));
      StoreWord(main, it, word);
      it := it + BytesPerWord;
      widx := widx + 1;
    }
  }

  /** The two final words of an in-place kernel: the word at `it` and the
      word ending at `len`, both read before either is written. */
  method XorFinalWordsInplace(main: array<bv8>, arg: array<bv8>, it: nat, len: nat)
    requires len <= main.Length && len <= arg.Length
    requires it + BytesPerWord <= len <= it + 2 * BytesPerWord
    modifies main
    ensures forall i :: 0 <= i < main.Length ==>
      main[i] == if it <= i < len then XorByte(old(main[i]), old(arg[i])) else old(main[i])
  {
    var mainWord1 := main[it..it + BytesPerWord];
    var argWord1 := arg[it..it + BytesPerWord];
    var finalOffset := len - BytesPerWord;
    var mainWord2 := main[finalOffset..len];
    var argWord2 := arg[finalOffset..len];
    var word1 := XorWords(mainWord1, argWord1);
    var word2 := XorWords(mainWord2, argWord2);
    assert forall i :: it <= i < it + BytesPerWord ==> word1[i - it] == XorByte(main[i], arg[i]);
    assert forall i :: finalOffset <= i < len ==> word2[i - finalOffset] == XorByte(main[i], arg[i]);
    StoreWord(main, it, word1);
    StoreWord(main, finalOffset, word2);
  }

  /** Sets dst := src1 ^ src2 one word at a time over the first nWords
      words. Any of the arrays may be the same. */
  method XorWordsInto(dst: array<bv8>, src1: array<bv8>, src2: array<bv8>, nWords: nat)
    requires BytesPerWord * nWords <= dst.Length
    requires BytesPerWord * nWords <= src1.Length && BytesPerWord * nWords <= src2.Length
    modifies dst
    ensures forall i :: 0 <= i < dst.Length ==>
      dst[i] == if i < BytesPerWord * nWords then XorByte(old(src1[i]), old(src2[i])) else old(dst[i])
  {
    var it := 0;
    var widx := 0;
    while widx < nWords
      invariant 0 <= widx <= nWords && it == BytesPerWord * widx
      invariant forall i :: 0 <= i < it ==> dst[i] == XorByte(old(src1[i]), old(src2[i]))
      invariant forall i :: it <= i < dst.Length ==> dst[i] == old(dst[i])
      invariant forall i :: it <= i < src1.Length ==> src1[i] == old(src1[i])
      invariant forall i :: it <= i < src2.Length ==> src2[i] == old(src2[i])
    {
      var word := XorWords(src1[it..it + BytesPerWord], src2[it..it + BytesPerWord]);
      assert forall k :: 0 <= k < BytesPerWord ==> word[k] == XorByte(old(src1[it + k]), old(src2[it + k]));
      StoreWord(dst, it, word);
      it := it + BytesPerWord;
      widx := widx + 1;
    }
  }

  /** XORs the word argWord, whose every byte is val, into main over the
      first nWords words; returns the offset the iterator ends at. */
  method XorConstWordsInplace(main: array<bv8>, argWord: Word, ghost val: bv8, nWords: nat) returns (it: nat)
    requires forall k :: 0 <= k < BytesPerWord ==> argWord[k] == val
    requires BytesPerWord * nWords <= main.Length
    modifies main
    ensures it == BytesPerWord * nWords
    ensures forall i :: 0 <= i < main.Length ==> main[i] == if i < it then XorByte(old(main[i]), val) else old(main[i])
  {
    it := 0;
    var widx := 0;
    while widx < nWords
      invariant 0 <= widx <= nWords && it == BytesPerWord * widx
      invariant forall i :: 0 <= i < main.Length ==> main[i] == if i < it then XorByte(old(main[i]), val) else old(main[i])
    {
      var word := XorWords(main[it..it + BytesPerWord], argWord);
      assert forall k :: 0 <= k < BytesPerWord ==> word[k] == XorByte(old(main[it + k]), val);
      StoreWord(main, it, word);
      it := it + BytesPerWord;
      widx := widx + 1;
    }
  }

  /** The two final words of an in-place constant kernel, both read before
      either is written. */
  method XorConstFinalWordsInplace(main: array<bv8>, argWord: Word, ghost val: bv8, it: nat, len: nat)
    requires forall k :: 0 <= k < BytesPerWord ==> argWord[k] == val
    requires len <= main.Length
    requires it + BytesPerWord <= len <= it + 2 * BytesPerWord
    modifies main
    ensures forall i :: 0 <= i < main.Length ==>
      main[i] == if it <= i < len then XorByte(old(main[i]), val) else old(main[i])
  {
    var mainWord1 := main[it..it + BytesPerWord];
    var finalOffset := len - BytesPerWord;
    var mainWord2 := main[finalOffset..len];
    var word1 := XorWords(mainWord1, argWord);
    var word2 := XorWords(mainWord2, argWord);
    assert forall i :: it <= i < it + BytesPerWord ==> word1[i - it] == XorByte(main[i], val);
    assert forall i :: finalOffset <= i < len ==> word2[i - finalOffset] == XorByte(main[i], val);
    StoreWord(main, it, word1);
    StoreWord(main, finalOffset, word2);
  }

  /** Sets dst := src ^ argWord, whose every byte is val, one word at a time
      over the first nWords words. dst and src may be the same array. */
  method XorConstWordsInto(dst: array<bv8>, src: array<bv8>, argWord: Word, ghost val: bv8, nWords: nat)
    requires forall k :: 0 <= k < BytesPerWord ==> argWord[k] == val
    requires BytesPerWord * nWords <= dst.Length && BytesPerWord * nWords <= src.Length
    modifies dst
    ensures forall i :: 0 <= i < dst.Length ==>
      dst[i] == if i < BytesPerWord * nWords then XorByte(old(src[i]), val) else old(dst[i])
  {
    var it := 0;
    var widx := 0;
    while widx < nWords
      invariant 0 <= widx <= nWords && it == BytesPerWord * widx
      invariant forall i :: 0 <= i < it ==> dst[i] == XorByte(old(src[i]), val)
      invariant forall i :: it <= i < dst.Length ==> dst[i] == old(dst[i])
      invariant forall i :: it <= i < src.Length ==> src[i] == old(src[i])
    {
      var word := XorWords(src[it..it + BytesPerWord], argWord);
      assert forall k :: 0 <= k < BytesPerWord ==> word[k] == XorByte(old(src[it + k]), val);
      StoreWord(dst, it, word);
      it := it + BytesPerWord;
      widx := widx + 1;
    }
  }

  // ---------------------------------------------------------------------
  // The kernels

  /** The bytes an unsafe in-place kernel writes: [0, len), widened to one
      whole word when len <= 8; within the assumed capacity. */
  function UnsafeInplaceEnd(len: nat): (e: nat)
    ensures len <= e <= RoundUpPow2(len + 1, BytesPerVec)
    ensures len <= BytesPerWord ==> e == BytesPerWord
    ensures len > BytesPerWord ==> e == len
  {
    BytesPerVecIsPow2();
    CapacityCoversWords(len, BytesPerVec);
    if len <= BytesPerWord then BytesPerWord else len
  }

  /** The bytes the unsafe copying kernels write: ceil(len / 8) whole words;
      within the assumed capacity. */
  function UnsafeWordsEnd(len: nat): (e: nat)
    ensures len <= e <= RoundUpPow2(len + 1, BytesPerVec)
    ensures e % BytesPerWord == 0
  {
    BytesPerVecIsPow2();
    CapacityCoversWords(len, BytesPerVec);
    DivUpBounds(len, BytesPerWord);
    BytesPerWord * DivUpPow2(len, BytesPerWord)
  }

  /** main[pos] ^= arg[pos] for every pos < len, where len is
      the slices' common length and both buffers have capacity at least
      RoundUpPow2(len + 1, BytesPerVec). When len <= 8 the whole first word
      is XORed. main and arg may be the same buffer. */
  method XorUnsafeInplace(main: array<bv8>, arg: array<bv8>, len: nat)
    requires main.Length >= RoundUpPow2(len + 1, BytesPerVec)
    requires arg.Length >= RoundUpPow2(len + 1, BytesPerVec)
    modifies main
    ensures forall i :: 0 <= i < main.Length ==>
      main[i] == if i < UnsafeInplaceEnd(len) then XorByte(old(main[i]), old(arg[i])) else old(main[i])
  {
    assert UnsafeInplaceEnd(len) <= main.Length;
    var mainLen := len;
    var it := 0;
    if mainLen > 2 * BytesPerWord {
      var nWordMinus2 := (mainLen - BytesPerWord - 1) / BytesPerWord;
      it := XorWordsInplace(main, arg, nWordMinus2);
    } else if mainLen <= BytesPerWord {
      var mainWord := main[0..BytesPerWord];
      var argWord := arg[0..BytesPerWord];
      StoreWord(main, 0, XorWords(mainWord, argWord));
      return;
    }
    InplaceTailFits(mainLen);
    XorFinalWordsInplace(main, arg, it, mainLen);
  }

  /** main[pos] ^= arg[pos] for every pos; fails (ok == false,
      nothing written) when the lengths differ. main and arg may be the same
      array. */
  method XorInplace(main: array<bv8>, arg: array<bv8>) returns (ok: bool)
    modifies main
    ensures ok <==> arg.Length == main.Length
    ensures !ok ==> unchanged(main)
    ensures ok ==> forall i :: 0 <= i < main.Length ==> main[i] == XorByte(old(main[i]), old(arg[i]))
    ensures main != arg ==> unchanged(arg)
  {
    var mainLen := main.Length;
    if arg.Length != mainLen {
      return false;
    }
    ok := true;
    if mainLen < BytesPerWord {
      for pos := 0 to mainLen
        invariant forall i :: 0 <= i < pos ==> main[i] == XorByte(old(main[i]), old(arg[i]))
        invariant forall i :: pos <= i < mainLen ==> main[i] == old(main[i]) && arg[i] == old(arg[i])
      {
        main[pos] := XorByte(main[pos], arg[pos]);
      }
      return;
    }
    var it := 0;
    if mainLen > 2 * BytesPerWord {
      var nWordMinus2 := (mainLen - BytesPerWord - 1) / BytesPerWord;
      it := XorWordsInplace(main, arg, nWordMinus2);
    }
    InplaceTailFits(mainLen);
    XorFinalWordsInplace(main, arg, it, mainLen);
  }

  /** dst[pos] := src1[pos] ^ src2[pos] for every pos < len, writing
      ceil(len / 8) whole words; every buffer has capacity at least
      RoundUpPow2(len + 1, BytesPerVec). Any of the buffers may be the same. */
  method XorUnsafe(dst: array<bv8>, src1: array<bv8>, src2: array<bv8>, len: nat)
    requires dst.Length >= RoundUpPow2(len + 1, BytesPerVec)
    requires src1.Length >= RoundUpPow2(len + 1, BytesPerVec)
    requires src2.Length >= RoundUpPow2(len + 1, BytesPerVec)
    modifies dst
    ensures forall i :: 0 <= i < dst.Length ==>
      dst[i] == if i < UnsafeWordsEnd(len) then XorByte(old(src1[i]), old(src2[i])) else old(dst[i])
  {
    var nWord := DivUpPow2(len, BytesPerWord);
    assert BytesPerWord * nWord == UnsafeWordsEnd(len);
    XorWordsInto(dst, src1, src2, nWord);
  }

  /** The bytes the safe copying kernels compute twice when len is above 8
      and not a multiple of 8: the final word at len - 8 overlaps the last
      loop word, which ends at 8 * ((len - 1) / 8). */
  predicate InFinalOverlap(len: nat, i: int)
  {
    len >= BytesPerWord && len - BytesPerWord <= i < BytesPerWord * ((len - 1) / BytesPerWord)
  }

  /** dst[pos] := src1[pos] ^ src2[pos] for every pos < n, one byte at a time;
      any of the arrays may be the same. */
  method XorBytesInto(dst: array<bv8>, src1: array<bv8>, src2: array<bv8>, n: nat)
    requires n <= dst.Length && n <= src1.Length && n <= src2.Length
    modifies dst
    ensures forall i :: 0 <= i < dst.Length ==>
      dst[i] == if i < n then XorByte(old(src1[i]), old(src2[i])) else old(dst[i])
  {
    for pos := 0 to n
      invariant forall i :: 0 <= i < pos ==> dst[i] == XorByte(old(src1[i]), old(src2[i]))
      invariant forall i :: pos <= i < dst.Length ==> dst[i] == old(dst[i])
      invariant forall i :: pos <= i < src1.Length ==> src1[i] == old(src1[i])
      invariant forall i :: pos <= i < src2.Length ==> src2[i] == old(src2[i])
    {
      dst[pos] := XorByte(src1[pos], src2[pos]);
    }
  }

  /** dst[pos] := src1[pos] ^ src2[pos] for every pos; fails (ok == false,
      nothing written) unless all three lengths are equal. When dst is one
      of the sources but not both, the bytes in the final-word overlap are
      read back after the loop wrote them and end up holding their old
      value instead of the XOR. */
  method Xor(dst: array<bv8>, src1: array<bv8>, src2: array<bv8>) returns (ok: bool)
    modifies dst
    ensures ok <==> src1.Length == dst.Length && src2.Length == dst.Length
    ensures !ok ==> unchanged(dst)
    ensures ok ==> forall i :: 0 <= i < dst.Length ==>
      dst[i] == if InFinalOverlap(dst.Length, i) && (dst == src1) != (dst == src2)
                then old(dst[i])
                else XorByte(old(src1[i]), old(src2[i]))
  {
    var dstLen := dst.Length;
    if src1.Length != dstLen || src2.Length != dstLen {
      return false;
    }
    ok := true;
    if dstLen < BytesPerWord {
      XorBytesInto(dst, src1, src2, dstLen);
      return;
    }
    XorWordPath(dst, src1, src2);
  }

  /** Xor for equal lengths of at least one word: the word loop, then the
      final word read after the loop. */
  method XorWordPath(dst: array<bv8>, src1: array<bv8>, src2: array<bv8>)
    requires BytesPerWord <= dst.Length && src1.Length == dst.Length && src2.Length == dst.Length
    modifies dst
    ensures forall i :: 0 <= i < dst.Length ==>
      dst[i] == if InFinalOverlap(dst.Length, i) && (dst == src1) != (dst == src2)
                then old(dst[i])
                else XorByte(old(src1[i]), old(src2[i]))
  {
    ghost var d0, a0, b0 := dst[..], src1[..], src2[..];
    var nWordMinus1 := (dst.Length - 1) / BytesPerWord;
    CopyTailFits(dst.Length);
    XorWordsInto(dst, src1, src2, nWordMinus1);
    ghost var mid, mid1, mid2 := dst[..], src1[..], src2[..];
    assert mid == XorRange(d0, a0, b0, 0, BytesPerWord * nWordMinus1);
    assert dst == src1 ==> mid1 == mid && a0 == d0;
    assert dst != src1 ==> mid1 == a0;
    assert dst == src2 ==> mid2 == mid && b0 == d0;
    assert dst != src2 ==> mid2 == b0;
    XorFinalWordInto(dst, src1, src2);
    XorFinalBytes(d0, a0, b0, mid, mid1, mid2, dst[..], dst == src1, dst == src2);
  }

  /** Xor's result byte by byte, on the contents of the arrays: d0, a0 and
      b0 before the call, mid, mid1 and mid2 after the word loop, fin at the
      end; alias1 and alias2 say whether dst is src1 and src2. */
  lemma XorFinalBytes(d0: seq<bv8>, a0: seq<bv8>, b0: seq<bv8>, mid: seq<bv8>, mid1: seq<bv8>, mid2: seq<bv8>,
                      fin: seq<bv8>, alias1: bool, alias2: bool)
    requires |d0| >= BytesPerWord
    requires |a0| == |d0| && |b0| == |d0| && |mid| == |d0| && |mid1| == |d0| && |mid2| == |d0| && |fin| == |d0|
    requires alias1 ==> mid1 == mid && a0 == d0
    requires !alias1 ==> mid1 == a0
    requires alias2 ==> mid2 == mid && b0 == d0
    requires !alias2 ==> mid2 == b0
    requires mid == XorRange(d0, a0, b0, 0, BytesPerWord * ((|d0| - 1) / BytesPerWord))
    requires fin == XorRange(mid, mid1, mid2, |d0| - BytesPerWord, |d0|)
    ensures forall i :: 0 <= i < |d0| ==>
      fin[i] == if InFinalOverlap(|d0|, i) && alias1 != alias2 then d0[i] else XorByte(a0[i], b0[i])
  {
    forall i | 0 <= i < |d0|
      ensures fin[i] == if InFinalOverlap(|d0|, i) && alias1 != alias2 then d0[i] else XorByte(a0[i], b0[i])
    {
      if |d0| - BytesPerWord <= i {
        FinalByteAfterLoop(a0[i], b0[i], d0[i], mid1[i], mid2[i], alias1, alias2, InFinalOverlap(|d0|, i));
      }
    }
  }

  /** The final word of Xor: reads the last 8 bytes of both sources and
      stores their XOR over the last 8 bytes of dst. */
  method XorFinalWordInto(dst: array<bv8>, src1: array<bv8>, src2: array<bv8>)
    requires BytesPerWord <= dst.Length && src1.Length == dst.Length && src2.Length == dst.Length
    modifies dst
    ensures dst[..] == XorRange(old(dst[..]), old(src1[..]), old(src2[..]), dst.Length - BytesPerWord, dst.Length)
  {
    var finalOffset := dst.Length - BytesPerWord;
    var finalWord := XorWords(src1[finalOffset..dst.Length], src2[finalOffset..dst.Length]);
    assert forall i :: finalOffset <= i < dst.Length ==> finalWord[i - finalOffset] == XorByte(src1[i], src2[i]);
    StoreWord(dst, finalOffset, finalWord);
  }

  /** The bytes d with those in [lo, hi) replaced by the XOR of a and b. */
  function XorRange(d: seq<bv8>, a: seq<bv8>, b: seq<bv8>, lo: int, hi: int): seq<bv8>
    requires |a| == |d| && |b| == |d|
  {
    seq(|d|, i requires 0 <= i < |d| => if lo <= i < hi then XorByte(a[i], b[i]) else d[i])
  }

  /** One byte of Xor's final word: each source byte reads the loop's
      result when the destination is that source and the byte was already
      written by the loop, and the byte stored is the XOR of the two. */
  lemma FinalByteAfterLoop(a: bv8, b: bv8, d: bv8, s1: bv8, s2: bv8, alias1: bool, alias2: bool, overlap: bool)
    requires alias1 ==> d == a
    requires alias2 ==> d == b
    requires s1 == if alias1 && overlap then XorByte(a, b) else a
    requires s2 == if alias2 && overlap then XorByte(a, b) else b
    ensures XorByte(s1, s2) == if overlap && alias1 != alias2 then d else XorByte(a, b)
  {
    XorByteReapplied(a, b);
    XorByteReapplied(a, a);
  }

  /** Xor with the final word read before the loop writes anything: every
      byte holds src1 ^ src2 whichever arrays are the same. */
  method XorReadFinalFirst(dst: array<bv8>, src1: array<bv8>, src2: array<bv8>) returns (ok: bool)
    modifies dst
    ensures ok <==> src1.Length == dst.Length && src2.Length == dst.Length
    ensures !ok ==> unchanged(dst)
    ensures ok ==> forall i :: 0 <= i < dst.Length ==> dst[i] == XorByte(old(src1[i]), old(src2[i]))
  {
    var dstLen := dst.Length;
    if src1.Length != dstLen || src2.Length != dstLen {
      return false;
    }
    ok := true;
    if dstLen < BytesPerWord {
      XorBytesInto(dst, src1, src2, dstLen);
      return;
    }
    var nWordMinus1 := (dstLen - 1) / BytesPerWord;
    CopyTailFits(dstLen);
    var finalOffset := dstLen - BytesPerWord;
    var finalWord := XorWords(src1[finalOffset..dstLen], src2[finalOffset..dstLen]);
    assert forall i :: finalOffset <= i < dstLen ==> finalWord[i - finalOffset] == XorByte(src1[i], src2[i]);
    XorWordsInto(dst, src1, src2, nWordMinus1);
    StoreWord(dst, finalOffset, finalWord);
  }

  /** Xor(a, a, b) on 12 bytes with a all zero and b all one: a ^= b would
      set byte 4 to 1, but the kernel as written leaves it 0. */
  method XorAliasedCounterexample() returns (byte4: bv8)
    ensures byte4 == 0 && XorByte(0, 1) == 1
  {
    var a := new bv8[12](_ => 0);
    var b := new bv8[12](_ => 1);
    var ok := Xor(a, a, b);
    assert InFinalOverlap(12, 4);
    byte4 := a[4];
  }

  /** main[pos] ^= val for every pos < len, where main has
      capacity at least RoundUpPow2(len + 1, BytesPerVec). When len <= 8 the
      whole first word is XORed. */
  method XorConst8UnsafeInplace(main: array<bv8>, len: nat, val: bv8)
    requires main.Length >= RoundUpPow2(len + 1, BytesPerVec)
    modifies main
    ensures forall i :: 0 <= i < main.Length ==>
      main[i] == if i < UnsafeInplaceEnd(len) then XorByte(old(main[i]), val) else old(main[i])
  {
    assert UnsafeInplaceEnd(len) <= main.Length;
    var mainLen := len;
    var argWord := BroadcastArgWord(val);
    var it := 0;
    if mainLen > 2 * BytesPerWord {
      var nWordMinus2 := (mainLen - BytesPerWord - 1) / BytesPerWord;
      it := XorConstWordsInplace(main, argWord, val, nWordMinus2);
    } else if mainLen <= BytesPerWord {
      var mainWord := main[0..BytesPerWord];
      StoreWord(main, 0, XorWords(mainWord, argWord));
      return;
    }
    InplaceTailFits(mainLen);
    XorConstFinalWordsInplace(main, argWord, val, it, mainLen);
  }

  /** main[pos] ^= val for every pos. */
  method XorConst8Inplace(main: array<bv8>, val: bv8)
    modifies main
    ensures forall i :: 0 <= i < main.Length ==> main[i] == XorByte(old(main[i]), val)
  {
    var mainLen := main.Length;
    if mainLen < BytesPerWord {
      for pos := 0 to mainLen
        invariant forall i :: 0 <= i < pos ==> main[i] == XorByte(old(main[i]), val)
        invariant forall i :: pos <= i < mainLen ==> main[i] == old(main[i])
      {
        main[pos] := XorByte(main[pos], val);
      }
      return;
    }
    var argWord := BroadcastArgWord(val);
    var it := 0;
    if mainLen > 2 * BytesPerWord {
      var nWordMinus2 := (mainLen - BytesPerWord - 1) / BytesPerWord;
      it := XorConstWordsInplace(main, argWord, val, nWordMinus2);
    }
    InplaceTailFits(mainLen);
    XorConstFinalWordsInplace(main, argWord, val, it, mainLen);
  }

  /** dst[pos] := src[pos] ^ val for every pos < len, writing ceil(len / 8)
      whole words; both buffers have capacity at least
      RoundUpPow2(len + 1, BytesPerVec). dst and src may be the same buffer. */
  method XorConst8Unsafe(dst: array<bv8>, src: array<bv8>, len: nat, val: bv8)
    requires dst.Length >= RoundUpPow2(len + 1, BytesPerVec)
    requires src.Length >= RoundUpPow2(len + 1, BytesPerVec)
    modifies dst
    ensures forall i :: 0 <= i < dst.Length ==>
      dst[i] == if i < UnsafeWordsEnd(len) then XorByte(old(src[i]), val) else old(dst[i])
  {
    var nWord := DivUpPow2(len, BytesPerWord);
    assert BytesPerWord * nWord == UnsafeWordsEnd(len);
    var argWord := BroadcastArgWord(val);
    XorConstWordsInto(dst, src, argWord, val, nWord);
  }

  /** dst[pos] := src[pos] ^ val for every pos < n, one byte at a time; dst
      and src may be the same array. */
  method XorConstBytesInto(dst: array<bv8>, src: array<bv8>, val: bv8, n: nat)
    requires n <= dst.Length && n <= src.Length
    modifies dst
    ensures forall i :: 0 <= i < dst.Length ==>
      dst[i] == if i < n then XorByte(old(src[i]), val) else old(dst[i])
  {
    for pos := 0 to n
      invariant forall i :: 0 <= i < pos ==> dst[i] == XorByte(old(src[i]), val)
      invariant forall i :: pos <= i < dst.Length ==> dst[i] == old(dst[i])
      invariant forall i :: pos <= i < src.Length ==> src[i] == old(src[i])
    {
      dst[pos] := XorByte(src[pos], val);
    }
  }

  /** dst[pos] := src[pos] ^ val for every pos; fails (ok == false, nothing
      written) when the lengths differ. When dst is src, the bytes in the
      final-word overlap get val XORed in twice and end up unchanged. */
  method XorConst8(dst: array<bv8>, src: array<bv8>, val: bv8) returns (ok: bool)
    modifies dst
    ensures ok <==> src.Length == dst.Length
    ensures !ok ==> unchanged(dst)
    ensures ok ==> forall i :: 0 <= i < dst.Length ==>
      dst[i] == if InFinalOverlap(dst.Length, i) && dst == src then old(dst[i]) else XorByte(old(src[i]), val)
  {
    var dstLen := dst.Length;
    if src.Length != dstLen {
      return false;
    }
    ok := true;
    if dstLen < BytesPerWord {
      XorConstBytesInto(dst, src, val, dstLen);
      return;
    }
    var nWordMinus1 := (dstLen - 1) / BytesPerWord;
    var argWord := BroadcastArgWord(val);
    CopyTailFits(dstLen);
    XorConstWordsInto(dst, src, argWord, val, nWordMinus1);
    var finalOffset := dstLen - BytesPerWord;
    var srcWord := src[finalOffset..dstLen];
    StoreWord(dst, finalOffset, XorWords(srcWord, argWord));
    forall i | finalOffset <= i < dstLen
      ensures dst[i] == if InFinalOverlap(dstLen, i) && dst == src then old(dst[i]) else XorByte(old(src[i]), val)
    {
      assert dst[i] == XorByte(srcWord[i - finalOffset], val);
      XorByteReapplied(old(src[i]), val);
    }
  }

  /** XorConst8 with the final word read before the loop writes anything:
      every byte holds src ^ val, also when dst is src. */
  method XorConst8ReadFinalFirst(dst: array<bv8>, src: array<bv8>, val: bv8) returns (ok: bool)
    modifies dst
    ensures ok <==> src.Length == dst.Length
    ensures !ok ==> unchanged(dst)
    ensures ok ==> forall i :: 0 <= i < dst.Length ==> dst[i] == XorByte(old(src[i]), val)
  {
    var dstLen := dst.Length;
    if src.Length != dstLen {
      return false;
    }
    ok := true;
    if dstLen < BytesPerWord {
      XorConstBytesInto(dst, src, val, dstLen);
      return;
    }
    var nWordMinus1 := (dstLen - 1) / BytesPerWord;
    var argWord := BroadcastArgWord(val);
    CopyTailFits(dstLen);
    var finalOffset := dstLen - BytesPerWord;
    var finalWord := XorWords(src[finalOffset..dstLen], argWord);
    assert forall i :: finalOffset <= i < dstLen ==> finalWord[i - finalOffset] == XorByte(src[i], val);
    XorConstWordsInto(dst, src, argWord, val, nWordMinus1);
    StoreWord(dst, finalOffset, finalWord);
  }

  /** XorConst8(a, a, 1) on 12 zero bytes: a ^= 1 would set byte 4 to 1,
      but the kernel as written leaves it 0. */
  method XorConst8AliasedCounterexample() returns (byte4: bv8)
    ensures byte4 == 0 && XorByte(0, 1) == 1
  {
    var a := new bv8[12](_ => 0);
    var ok := XorConst8(a, a, 1);
    assert InFinalOverlap(12, 4);
    byte4 := a[4];
  }

  // ---------------------------------------------------------------------
  // Round trips through the kernels

  /** XORing the same mask into a buffer twice restores the buffer. */
  method XorInplaceTwice(main: array<bv8>, arg: array<bv8>)
    requires main != arg && main.Length == arg.Length
    modifies main
    ensures main[..] == old(main[..])
  {
    var ok1 := XorInplace(main, arg);
    var ok2 := XorInplace(main, arg);
    forall i | 0 <= i < main.Length
      ensures main[i] == old(main[i])
    {
      XorByteTwice(old(main[i]), arg[i]);
    }
  }

  /** XORing the same constant into a buffer twice restores the buffer. */
  method XorConst8InplaceTwice(main: array<bv8>, val: bv8)
    modifies main
    ensures main[..] == old(main[..])
  {
    XorConst8Inplace(main, val);
    XorConst8Inplace(main, val);
    forall i | 0 <= i < main.Length
      ensures main[i] == old(main[i])
    {
      XorByteTwice(old(main[i]), val);
    }
  }

  /** Encrypting src into dst and decrypting dst back into out with the same
      key gives back src. */
  method XorThenXorBack(dst: array<bv8>, out: array<bv8>, src: array<bv8>, key: array<bv8>)
    requires dst != src && dst != key && out != dst && out != key
    requires dst.Length == src.Length == key.Length == out.Length
    modifies dst, out
    ensures out[..] == old(src[..])
  {
    var ok1 := Xor(dst, src, key);
    var ok2 := Xor(out, dst, key);
    forall i | 0 <= i < out.Length
      ensures out[i] == old(src[i])
    {
      XorByteTwice(old(src[i]), key[i]);
    }
  }
}
