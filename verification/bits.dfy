/**
 Bit buffers of the Moore automaton simulator.

 Every buffer of the simulator (state, next state, output, manual input,
 final input) holds a fixed number of bits. At the level of the automaton
 model a buffer is a `seq<bool>` of exactly that width. This module also
 models the packed representation the simulator stores: 64-bit words, bit
 `i` living at word `i / 64`, position `i % 64`, and it proves that the
 two views agree.
 */
module Bits {

  /** A bit buffer at its declared width. */
  type Bits = seq<bool>

  const WordBits: nat := 64

  /** One 64-bit storage word of a packed buffer, as its bits: entry `p` is
      the bit of weight `2^p`. Shifts and masks on a word become indexing. */
  type Word = x: seq<bool> | |x| == WordBits witness seq(64, _ => false)

  /** The all-zero buffer of width `w` (what `calloc` hands out). */
  function Zeros(w: nat): (r: Bits)
    ensures |r| == w
    ensures forall i :: 0 <= i < w ==> !r[i]
  {
    seq(w, i => false)
  }

  /** Reads a buffer produced by a user-supplied function at width `w`:
      bits past the end of `b` read as zero, bits past `w` are dropped. */
  function Fit(b: Bits, w: nat): (r: Bits)
    ensures |r| == w
    ensures forall i :: 0 <= i < w ==> r[i] == (i < |b| && b[i])
    ensures |b| == w ==> r == b
  {
    seq(w, i requires 0 <= i < w => i < |b| && b[i])
  }

  // ---------------------------------------------------------------------
  // Word / bit indexing (bit_word, bit_pos and the (x + 63) / 64 sizing)
  // ---------------------------------------------------------------------

  /** Number of 64-bit words that hold `w` bits. */
  function WordCount(w: nat): nat
  {
    (w + 63) / 64
  }

  /** Index of the word that holds bit `i`. */
  function BitWord(i: nat): nat
  {
    i / 64
  }

  /** Position of bit `i` inside its word. */
  function BitPos(i: nat): nat
  {
    i % 64
  }

  /** Word count is the least number of words whose bits cover `w`. */
  lemma WordCountTight(w: nat)
    ensures 64 * WordCount(w) >= w
    ensures w == 0 <==> WordCount(w) == 0
    ensures WordCount(w) > 0 ==> 64 * (WordCount(w) - 1) < w
  {
  }

  /** Bit `i` of a `w`-bit buffer lives inside the buffer's words, and the
      pair (word, position) determines the bit index uniquely. */
  lemma BitIndexing(i: nat, w: nat)
    requires i < w
    ensures BitWord(i) < WordCount(w)
    ensures BitPos(i) < WordBits
    ensures BitWord(i) * WordBits + BitPos(i) == i
    ensures forall j: nat {:trigger BitWord(j), BitPos(j)} ::
              BitWord(j) == BitWord(i) && BitPos(j) == BitPos(i) ==> j == i
  {
  }

  // ---------------------------------------------------------------------
  // Single-bit access on packed words
  // ---------------------------------------------------------------------

  /** `(x >> c) & 1`: bit number `c` (0 = least significant) of a word. */
  predicate WordBit(x: Word, c: nat)
    requires c < WordBits
  {
    x[c]
  }

  /** `x | (1 << b)`. */
  function WordSet(x: Word, b: nat): (r: Word)
    requires b < WordBits
    ensures forall c :: 0 <= c < WordBits ==> WordBit(r, c) == (c == b || WordBit(x, c))
  {
    x[b := true]
  }

  /** `x & ((1 << u) - 1)`: keeps the `u` low bits of a word. */
  function WordLow(x: Word, u: nat): (r: Word)
    requires u < WordBits
    ensures forall c :: 0 <= c < WordBits ==> WordBit(r, c) == (c < u && WordBit(x, c))
  {
    seq(WordBits, c requires 0 <= c < WordBits => c < u && x[c])
  }

  /** The zero word. */
  const WordZero: Word := seq(64, _ => false)

  /** `(ws[i / 64] >> (i % 64)) & 1`: the read of bit `i` of a packed buffer. */
  predicate TestBit(ws: seq<Word>, i: nat)
    requires BitWord(i) < |ws|
  {
    WordBit(ws[BitWord(i)], BitPos(i))
  }

  /** `ws[i / 64] |= 1 << (i % 64)`: sets bit `i` and no other. */
  function SetBit(ws: seq<Word>, i: nat): (r: seq<Word>)
    requires BitWord(i) < |ws|
    ensures |r| == |ws|
    ensures forall j: nat :: BitWord(j) < |r| ==> TestBit(r, j) == (j == i || TestBit(ws, j))
  {
    var r := ws[BitWord(i) := WordSet(ws[BitWord(i)], BitPos(i))];
    assert forall j: nat :: BitWord(j) < |r| ==> TestBit(r, j) == (j == i || TestBit(ws, j)) by {
      BitIndexing(i, i + 1);
    }
    r
  }

  /** `k` zeroed words. */
  function ZeroWords(k: nat): (r: seq<Word>)
    ensures |r| == k
    ensures forall j: nat :: BitWord(j) < k ==> !TestBit(r, j)
  {
    seq(k, _ => WordZero)
  }

  /** The bit view of the first `w` bits of a packed buffer. */
  function Unpack(ws: seq<Word>, w: nat): (r: Bits)
    requires WordCount(w) <= |ws|
    ensures |r| == w
    ensures forall i :: 0 <= i < w ==> BitWord(i) < |ws| && r[i] == TestBit(ws, i)
  {
    seq(w, i requires 0 <= i < w => BitIndexing(i, w); TestBit(ws, i))
  }

  /** A packed buffer of `WordCount(|bits|)` words holding `bits` with every
      bit past `|bits|` zero: the canonical storage of a bit buffer. */
  ghost predicate Packs(ws: seq<Word>, bits: Bits)
  {
    && |ws| == WordCount(|bits|)
    && forall j: nat :: BitWord(j) < |ws| ==> TestBit(ws, j) == (j < |bits| && bits[j])
  }

  /** identity_func on packed words: when `m == s` copy the state words and
      clear the unused high bits of the last one; otherwise leave the output
      buffer `out` as it was. */
  function IdentityWords(out: seq<Word>, state: seq<Word>, m: nat, s: nat): (r: seq<Word>)
    requires |out| == WordCount(m)
    requires |state| == WordCount(s)
    ensures |r| == WordCount(m)
    ensures m == s && s > 0 ==>
              forall j: nat :: BitWord(j) < |r| ==> TestBit(r, j) == (j < s && TestBit(state, j))
    ensures !(m == s && s > 0) ==> r == out
  {
    if m == s && s > 0 then
      var k := WordCount(s);
      var used := s % 64;
      if used != 0 then
        var r := state[k - 1 := WordLow(state[k - 1], used)];
        assert forall j: nat :: BitWord(j) < |r| ==> TestBit(r, j) == (j < s && TestBit(state, j)) by {
          forall j: nat | BitWord(j) < |r|
            ensures TestBit(r, j) == (j < s && TestBit(state, j))
          {
            WordCountTight(s);
          }
        }
        r
      else
        WordCountTight(s);
        state
    else
      out
  }
}
