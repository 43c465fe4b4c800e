/** The 256-bit occupancy masks of the price index (src/book/order_book.cpp:12-52): four 64-bit
    words that are a value inside their node, so a node's mask field is reassigned to change it. */
module Masks {
  import opened Bits
  import opened Common

  type Mask = m: seq<Word> | |m| == 4 witness [0, 0, 0, 0]

  const EMPTY: Mask := [0, 0, 0, 0]

  /** Meaning of a mask: `v` is one of the bytes it marks. */
  ghost predicate Has(m: Mask, v: Byte) {
    Bit(m[v / 64], v % 64)
  }

  function MaskBit(v: Byte): Word {
    Pow2Monotone(64, v % 64);
    Pow2Values();
    Pow2(v % 64)
  }

  function Set(m: Mask, v: Byte): (r: Mask)
    ensures Has(r, v)
    ensures forall u: Byte :: Has(r, u) <==> u == v || Has(m, u)
  {
    SetWord(m[v / 64], v);
    SameByte(v);
    m[v / 64 := BitOr(m[v / 64], MaskBit(v))]
  }

  function Clear(m: Mask, v: Byte): (r: Mask)
    ensures !Has(r, v)
    ensures forall u: Byte :: Has(r, u) <==> u != v && Has(m, u)
  {
    ClearWord(m[v / 64], v);
    SameByte(v);
    m[v / 64 := BitAnd(m[v / 64], BitNot(MaskBit(v), 64))]
  }

  predicate Any(m: Mask) {
    BitOr(BitOr(BitOr(m[0], m[1]), m[2]), m[3]) != 0
  }

  /** The lowest marked byte; 0 when there is none. */
  method Lowest(m: Mask) returns (v: Byte)
    ensures Any(m) ==> Has(m, v) && forall u: Byte :: Has(m, u) ==> v <= u
    ensures !Any(m) ==> v == 0
  {
    AnyMeans(m);
    for word := 0 to 4
      invariant forall u: Byte :: u < 64 * word ==> !Has(m, u)
      invariant forall k :: 0 <= k < word ==> m[k] == 0
    {
      if m[word] != 0 {
        LowestInWord(m, word);
        return word * 64 + CountrZero(m[word]);
      }
      ZeroWord(m, word);
    }
    return 0;
  }

  /** The highest marked byte; 0 when there is none. */
  method Highest(m: Mask) returns (v: Byte)
    ensures Any(m) ==> Has(m, v) && forall u: Byte :: Has(m, u) ==> u <= v
    ensures !Any(m) ==> v == 0
  {
    AnyMeans(m);
    for word := 4 downto 0
      invariant forall u: Byte :: 64 * word <= u ==> !Has(m, u)
      invariant forall k :: word <= k < 4 ==> m[k] == 0
    {
      if m[word] != 0 {
        HighestInWord(m, word);
        return word * 64 + (63 - CountlZero(m[word]));
      }
      ZeroWord(m, word);
    }
    return 0;
  }

  // ---- lemmas ----

  lemma SameByte(v: Byte)
    ensures forall u: Byte :: u == v <==> u / 64 == v / 64 && u % 64 == v % 64
  {
  }

  lemma SetWord(w: Word, v: Byte)
    ensures BitOr(w, MaskBit(v)) < TWO_64
    ensures forall u: Byte :: Bit(BitOr(w, MaskBit(v)), u % 64) <==> u % 64 == v % 64 || Bit(w, u % 64)
  {
    Pow2Values();
    OrBound(w, MaskBit(v), 64);
    forall u: Byte
      ensures Bit(BitOr(w, MaskBit(v)), u % 64) <==> u % 64 == v % 64 || Bit(w, u % 64)
    {
      BitOfOr(w, MaskBit(v), u % 64);
      BitOfPow2(v % 64, u % 64);
    }
  }

  lemma ClearWord(w: Word, v: Byte)
    ensures BitAnd(w, BitNot(MaskBit(v), 64)) < TWO_64
    ensures forall u: Byte :: Bit(BitAnd(w, BitNot(MaskBit(v), 64)), u % 64) <==> u % 64 != v % 64 && Bit(w, u % 64)
  {
    AndBound(w, BitNot(MaskBit(v), 64));
    forall u: Byte
      ensures Bit(BitAnd(w, BitNot(MaskBit(v), 64)), u % 64) <==> u % 64 != v % 64 && Bit(w, u % 64)
    {
      BitOfAnd(w, BitNot(MaskBit(v), 64), u % 64);
      BitOfNot(MaskBit(v), 64, u % 64);
      BitOfPow2(v % 64, u % 64);
    }
  }

  /** `any` is true exactly when some byte is marked. */
  lemma AnyMeans(m: Mask)
    ensures Any(m) <==> exists v: Byte :: Has(m, v)
    ensures Any(m) <==> m[0] != 0 || m[1] != 0 || m[2] != 0 || m[3] != 0
    ensures !Any(m) <==> m == EMPTY
  {
    OrZero(m[0], m[1]);
    OrZero(BitOr(m[0], m[1]), m[2]);
    OrZero(BitOr(BitOr(m[0], m[1]), m[2]), m[3]);
    if Any(m) {
      var k :| 0 <= k < 4 && m[k] != 0;
      LowestInWord(m, k);
    } else {
      ZeroWord(m, 0);
      ZeroWord(m, 1);
      ZeroWord(m, 2);
      ZeroWord(m, 3);
    }
  }

  lemma ZeroWord(m: Mask, word: nat)
    requires word < 4 && m[word] == 0
    ensures forall u: Byte :: u / 64 == word ==> !Has(m, u)
  {
    forall u: Byte | u / 64 == word
      ensures !Has(m, u)
    {
      NoBitsInZero(u % 64);
    }
  }

  lemma OrZero(a: Word, b: Word)
    ensures BitOr(a, b) < TWO_64
    ensures BitOr(a, b) == 0 <==> a == 0 && b == 0
  {
    Pow2Values();
    OrBound(a, b, 64);
  }

  lemma LowestInWord(m: Mask, word: nat)
    requires word < 4 && m[word] != 0
    ensures CountrZero(m[word]) < 64
    ensures var v := word * 64 + CountrZero(m[word]); Has(m, v) && forall u: Byte :: Has(m, u) && u / 64 == word ==> v <= u
  {
    CountrZeroIsLowest(m[word]);
    BitWidthOfWord(m[word]);
  }

  lemma HighestInWord(m: Mask, word: nat)
    requires word < 4 && m[word] != 0
    ensures 0 <= 63 - CountlZero(m[word])
    ensures var v := word * 64 + (63 - CountlZero(m[word]));
      Has(m, v) && forall u: Byte :: Has(m, u) && u / 64 == word ==> u <= v
  {
    BitWidthIsHighest(m[word]);
    BitWidthOfWord(m[word]);
  }
}
