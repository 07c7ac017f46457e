/** A growable bitset stored as a list of 64-bit words (bitset.py).
    Word `k` holds indices `64*k .. 64*k+63`: index `i` is bit `i % 64` of
    word `i / 64`. Words are Python integers, so they are `nat` here, and
    the two single-bit operations the source uses (`w | (1 << k)` and
    `w - (1 << k)`) are defined on them bit by bit. */
module Bits {
  import opened Common

  /** The word width the source fixes in its constructor. */
  const WordBits: nat := 64

  /** `1 << k`. */
  function Pow2(k: nat): (r: nat)
    ensures r >= 1
  {
    if k == 0 then 1 else 2 * Pow2(k - 1)
  }

  /** `w & (1 << k) > 0`: bit `k` of `w`. */
  predicate BitOf(w: nat, k: nat)
  {
    if k == 0 then w % 2 == 1 else BitOf(w / 2, k - 1)
  }

  /** `w | (1 << k)`: `w` with bit `k` switched on. */
  function OrBit(w: nat, k: nat): nat
  {
    if k == 0 then (if w % 2 == 1 then w else w + 1)
    else 2 * OrBit(w / 2, k - 1) + w % 2
  }

  /** Word `k` of a word list, where missing words read as zero
      (the fill value of `zip_longest` in `__eq__`). */
  function Word(data: seq<nat>, k: nat): nat
  {
    if k < |data| then data[k] else 0
  }

  /** Whether index `idx` is set in a word list. */
  predicate Bit(data: seq<nat>, idx: nat)
  {
    BitOf(Word(data, idx / WordBits), idx % WordBits)
  }

  /** The two word lists agree once the shorter is padded with zero words. */
  ghost predicate PaddedEqual(a: seq<nat>, b: seq<nat>)
  {
    forall k: nat :: Word(a, k) == Word(b, k)
  }

  /** Every word fits in 64 bits. */
  ghost predicate WordsFit(data: seq<nat>)
  {
    forall k :: 0 <= k < |data| ==> data[k] < Pow2(WordBits)
  }

  /** The zero word has no bit set. */
  lemma {:induction false} ZeroHasNoBits(k: nat)
    ensures !BitOf(0, k)
  {
    if k > 0 {
      ZeroHasNoBits(k - 1);
    }
  }

  /** Bits past the last word read as unset. */
  lemma BitPastEnd(data: seq<nat>, idx: nat)
    requires |data| <= idx / WordBits
    ensures !Bit(data, idx)
  {
    ZeroHasNoBits(idx % WordBits);
  }

  /** Switching bit `k` on sets bit `k` and leaves every other bit alone. */
  lemma {:induction false} OrBitBits(w: nat, k: nat, j: nat)
    ensures BitOf(OrBit(w, k), j) <==> (j == k || BitOf(w, j))
  {
    if k == 0 {
      if j > 0 {
        assert OrBit(w, k) / 2 == w / 2;
      }
    } else {
      var r := OrBit(w, k);
      assert r / 2 == OrBit(w / 2, k - 1) && r % 2 == w % 2;
      if j > 0 {
        OrBitBits(w / 2, k - 1, j - 1);
      }
    }
  }

  /** Switching on a bit below 64 keeps a 64-bit word in 64 bits. */
  lemma {:induction false} OrBitFits(w: nat, k: nat, n: nat)
    requires k < n && w < Pow2(n)
    ensures OrBit(w, k) < Pow2(n)
  {
    var half := Pow2(n - 1);
    assert Pow2(n) == 2 * half;
    if k == 0 {
      if w % 2 == 0 {
        assert w + 1 < 2 * half;
      }
    } else {
      assert w / 2 < half;
      OrBitFits(w / 2, k - 1, n - 1);
      assert OrBit(w, k) == 2 * OrBit(w / 2, k - 1) + w % 2;
      assert OrBit(w / 2, k - 1) + 1 <= half;
    }
  }

  /** Subtracting a bit that is set clears it and leaves every other bit alone. */
  lemma {:induction false} MinusBitBits(w: nat, k: nat, j: nat)
    requires BitOf(w, k)
    ensures w >= Pow2(k)
    ensures BitOf(w - Pow2(k), j) <==> (j != k && BitOf(w, j))
  {
    if k == 0 {
      if j > 0 {
        assert (w - 1) / 2 == w / 2;
      }
    } else {
      MinusBitBits(w / 2, k - 1, if j > 0 then j - 1 else 0);
      var r := w - Pow2(k);
      assert r / 2 == w / 2 - Pow2(k - 1) && r % 2 == w % 2;
      if j > 0 {
        MinusBitBits(w / 2, k - 1, j - 1);
      }
    }
  }

  /** Subtracting a set bit keeps a 64-bit word in 64 bits. */
  lemma MinusBitFits(w: nat, k: nat, n: nat)
    requires BitOf(w, k) && w < Pow2(n)
    ensures Pow2(k) <= w && w - Pow2(k) < Pow2(n)
  {
    MinusBitBits(w, k, k);
  }

  /** Words of `n` bits that agree on each of their bits are equal. */
  lemma {:induction false} WordsEqualFromBits(x: nat, y: nat, n: nat)
    requires x < Pow2(n) && y < Pow2(n)
    requires forall j: nat :: j < n ==> (BitOf(x, j) <==> BitOf(y, j))
    ensures x == y
  {
    if n > 0 {
      assert BitOf(x, 0) <==> BitOf(y, 0);
      forall j: nat | j < n - 1 ensures BitOf(x / 2, j) <==> BitOf(y / 2, j) {
        assert BitOf(x, j + 1) <==> BitOf(y, j + 1);
      }
      WordsEqualFromBits(x / 2, y / 2, n - 1);
    }
  }

  /** Padded equality of the word lists is the same as having the same bits set. */
  lemma PaddedEqualIffSameBits(a: seq<nat>, b: seq<nat>)
    requires WordsFit(a) && WordsFit(b)
    ensures PaddedEqual(a, b) <==> forall idx: nat :: Bit(a, idx) == Bit(b, idx)
  {
    if forall idx: nat :: Bit(a, idx) == Bit(b, idx) {
      forall k: nat ensures Word(a, k) == Word(b, k) {
        forall j: nat | j < WordBits ensures BitOf(Word(a, k), j) <==> BitOf(Word(b, k), j) {
          var idx := WordBits * k + j;
          assert idx / WordBits == k && idx % WordBits == j;
          assert Bit(a, idx) == Bit(b, idx);
        }
        WordsEqualFromBits(Word(a, k), Word(b, k), WordBits);
      }
    }
  }

  /** Word lists that differ only in the word of `idx`, where bit `idx` is
      switched on, differ only in bit `idx`. */
  lemma SetWordBits(before: seq<nat>, after: seq<nat>, idx: nat)
    requires idx / WordBits < |after|
    requires forall k :: 0 <= k < |after| ==>
      after[k] == if k == idx / WordBits then OrBit(Word(before, k), idx % WordBits) else Word(before, k)
    requires |before| <= |after|
    ensures forall j: nat :: Bit(after, j) == (j == idx || Bit(before, j))
  {
    forall j: nat ensures Bit(after, j) == (j == idx || Bit(before, j)) {
      var k := j / WordBits;
      if k < |after| {
        assert Word(after, k) == after[k];
        if k == idx / WordBits {
          OrBitBits(Word(before, k), idx % WordBits, j % WordBits);
          if j % WordBits == idx % WordBits {
            assert j == WordBits * k + j % WordBits && idx == WordBits * k + idx % WordBits;
          }
        }
      } else {
        BitPastEnd(after, j);
        BitPastEnd(before, j);
      }
    }
  }

  /** Subtracting the bit `idx` from its word, when it is set, clears bit
      `idx` and no other, and keeps every word in 64 bits. */
  lemma ClearWordBits(data: seq<nat>, after: seq<nat>, idx: nat)
    requires idx / WordBits < |data| && Bit(data, idx) && WordsFit(data)
    requires data[idx / WordBits] >= Pow2(idx % WordBits)
    requires after == data[idx / WordBits := data[idx / WordBits] - Pow2(idx % WordBits)]
    ensures WordsFit(after) && |after| == |data|
    ensures !Bit(after, idx)
    ensures forall j: nat :: j != idx ==> Bit(after, j) == Bit(data, j)
  {
    var k0, b0 := idx / WordBits, idx % WordBits;
    MinusBitFits(data[k0], b0, WordBits);
    forall j: nat ensures Bit(after, j) == (j != idx && Bit(data, j)) {
      var k := j / WordBits;
      if k == k0 {
        MinusBitBits(data[k0], b0, j % WordBits);
        if j % WordBits == b0 {
          assert j == WordBits * k + j % WordBits && idx == WordBits * k + b0;
        }
      }
    }
  }

  /** `get` exactly as written: the guard `len(data) < superidx` lets
      `superidx == len(data)` through to an out-of-range index, which raises;
      `None` stands for that IndexError. */
  function GetAsWritten(data: seq<nat>, idx: nat): (r: Option<bool>)
    ensures r.None? <==> idx / WordBits == |data|
    ensures r.Some? ==> r.value == Bit(data, idx)
  {
    var superidx := idx / WordBits;
    if |data| < superidx then BitPastEnd(data, idx); Some(false)
    else if superidx == |data| then None
    else Some(BitOf(data[superidx], idx % WordBits))
  }

  /** The as-written `get` raises on a fresh bitset, where the intended answer is false. */
  lemma GetAsWrittenFailsOnEmpty()
    ensures GetAsWritten([], 0) == None
    ensures !Bit([], 0)
  {
  }

  class Bitset {
    var data: seq<nat>
    var bitsEach: nat

    ghost predicate Valid()
      reads this
    {
      bitsEach == WordBits && WordsFit(data)
    }

    /** A new bitset has no words and so no bits set. */
    constructor ()
      ensures Valid() && data == []
      ensures forall idx: nat :: !Bit(data, idx)
    {
      data := [];
      bitsEach := WordBits;
      new;
      forall idx: nat ensures !Bit(data, idx) {
        BitPastEnd(data, idx);
      }
    }

    /** `get`, with the bound check corrected to `len(data) <= superidx`. */
    method Get(idx: nat) returns (b: bool)
      requires Valid()
      ensures b == Bit(data, idx)
    {
      var superidx := idx / bitsEach;
      var subidx := idx % bitsEach;
      if |data| <= superidx {
        BitPastEnd(data, idx);
        return false;
      }
      b := BitOf(data[superidx], subidx);
    }

    /** The padding loop of `set`: appends zero words until word `n` exists. */
    method Pad(n: nat)
      requires Valid()
      modifies this
      ensures Valid()
      ensures |data| == if n < |old(data)| then |old(data)| else n + 1
      ensures forall k :: 0 <= k < |data| ==> data[k] == Word(old(data), k)
    {
      while |data| <= n
        invariant |old(data)| <= |data| <= if n < |old(data)| then |old(data)| else n + 1
        invariant forall k :: 0 <= k < |data| ==> data[k] == Word(old(data), k)
        invariant WordsFit(data) && bitsEach == WordBits
      {
        data := data + [0];
      }
    }

    /** `set`: pads with zero words until word `idx / 64` exists, then ORs the bit in. */
    method Set(idx: nat)
      requires Valid()
      modifies this
      ensures Valid()
      ensures Bit(data, idx)
      ensures forall j: nat :: j != idx ==> Bit(data, j) == Bit(old(data), j)
      ensures |data| == if idx / WordBits < |old(data)| then |old(data)| else idx / WordBits + 1
      ensures forall k :: 0 <= k < |data| ==>
        data[k] == if k == idx / WordBits then OrBit(Word(old(data), k), idx % WordBits) else Word(old(data), k)
    {
      var superidx := idx / bitsEach;
      var subidx := idx % bitsEach;
      Pad(superidx);
      OrBitFits(data[superidx], subidx, WordBits);
      data := data[superidx := OrBit(data[superidx], subidx)];
      SetWordBits(old(data), data, idx);
    }

    /** `clear`: subtracts the bit when it is set; an unset bit changes nothing. */
    method Clear(idx: nat)
      requires Valid()
      modifies this
      ensures Valid()
      ensures !Bit(data, idx)
      ensures forall j: nat :: j != idx ==> Bit(data, j) == Bit(old(data), j)
      ensures !Bit(old(data), idx) ==> data == old(data)
      ensures |data| == |old(data)|
    {
      var isSet := Get(idx);
      if !isSet {
        return;
      }
      var superidx := idx / bitsEach;
      var subidx := idx % bitsEach;
      if |data| <= superidx {
        BitPastEnd(data, idx);
      }
      MinusBitFits(data[superidx], subidx, WordBits);
      var after := data[superidx := data[superidx] - Pow2(subidx)];
      ClearWordBits(data, after, idx);
      data := after;
    }

    /** `__eq__`: equal word widths and equal words after zero padding. */
    method Equals(other: Bitset) returns (r: bool)
      ensures r <==> bitsEach == other.bitsEach && PaddedEqual(data, other.data)
    {
      if bitsEach != other.bitsEach {
        return false;
      }
      var n := if |data| < |other.data| then |other.data| else |data|;
      var k := 0;
      while k < n
        invariant 0 <= k <= n
        invariant forall i: nat :: i < k ==> Word(data, i) == Word(other.data, i)
      {
        if Word(data, k) != Word(other.data, k) {
          return false;
        }
        k := k + 1;
      }
      return true;
    }
  }
}
