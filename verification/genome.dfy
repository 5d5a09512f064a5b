/** The genome layer of teoc.c: a fixed-length bit string that is addressed
    circularly, and the little-endian unsigned integers read out of it. */
module Genome {

  /** Bits in every genome; 2^GenomeAddressSize == GenomeLength. */
  const GenomeLength: nat := 256
  /** Width in bits of a gene start address, so every address is below GenomeLength. */
  const GenomeAddressSize: nat := 8

  type Bit = b: nat | b <= 1

  type Genome = g: seq<Bit> | |g| == GenomeLength witness seq(GenomeLength, _ => 0)

  function Pow2(n: nat): (r: nat)
    ensures r >= 1
  {
    if n == 0 then 1 else 2 * Pow2(n - 1)
  }

  /** Folds a virtual index into [0, range) by adding or subtracting range at
      most once. It is not a true modulo: only indices in [-range, 2 * range)
      come out in range. */
  function WrappedIndex(i: int, range: nat): (r: int)
    ensures 0 <= range + i && i < 2 * range ==> 0 <= r < range
    ensures 0 <= i < range ==> r == i
  {
    if i >= range then i - range
    else if i < 0 then range + i
    else i
  }

  /** On its domain the single wrap agrees with the mathematical remainder. */
  lemma WrappedIndexIsModulo(i: int, range: nat)
    requires range > 0 && 0 <= range + i && i < 2 * range
    ensures WrappedIndex(i, range) == i % range
  {
    if i >= range {
      assert i - range == i % range by {
        assert i == 1 * range + (i - range);
      }
    } else if i < 0 {
      assert range + i == i % range by {
        assert i == -1 * range + (range + i);
      }
    }
  }

  /** Outside its domain the single wrap leaves the index out of range. */
  lemma WrappedIndexSingleWrap(i: int, range: nat)
    ensures i >= 2 * range ==> WrappedIndex(i, range) >= range
    ensures range + i < 0 ==> WrappedIndex(i, range) < 0
  {
  }

  /** A field of len bits from start stays inside the one wrap that
      WrappedIndex can undo. */
  predicate InReach(start: nat, len: nat) {
    start + len <= 2 * GenomeLength
  }

  /** The bit at a virtual index: the index is taken modulo the genome length. */
  function GeneAt(g: Genome, i: nat): (b: Bit)
    requires i < 2 * GenomeLength
    ensures b == g[i % GenomeLength]
  {
    WrappedIndexIsModulo(i, GenomeLength);
    g[WrappedIndex(i, GenomeLength)]
  }

  /** The unsigned value of len bits read from start, least significant bit
      first: the sum over k < len of GeneAt(g, start + k) * 2^k. */
  function UnsignedIntFromGenome(g: Genome, start: nat, len: nat): (r: nat)
    requires InReach(start, len)
    ensures r < Pow2(len)
    decreases len
  {
    if len == 0 then 0
    else UnsignedIntFromGenome(g, start, len - 1) + Pow2(len - 1) * GeneAt(g, start + len - 1)
  }

  /** The decoding loop: a running weight doubles as the bit index advances. */
  method ReadUnsigned(g: Genome, start: nat, len: nat) returns (r: nat)
    requires InReach(start, len)
    ensures r == UnsignedIntFromGenome(g, start, len)
    ensures r < Pow2(len)
  {
    var weight: nat := 1;
    var i := start;
    var end := start + len;
    r := 0;
    while i < end
      invariant start <= i <= end
      invariant weight == Pow2(i - start)
      invariant r == UnsignedIntFromGenome(g, start, i - start)
    {
      assert Pow2(i + 1 - start) == 2 * weight;
      r := r + weight * GeneAt(g, i);
      weight := weight * 2;
      i := i + 1;
    }
  }

  /** The decoded value depends only on the bits the field covers. */
  lemma {:induction false} UnsignedIntFromGenomeFrame(g: Genome, h: Genome, start: nat, len: nat)
    requires InReach(start, len)
    requires forall k :: start <= k < start + len ==> GeneAt(g, k) == GeneAt(h, k)
    ensures UnsignedIntFromGenome(g, start, len) == UnsignedIntFromGenome(h, start, len)
    decreases len
  {
    if len > 0 {
      UnsignedIntFromGenomeFrame(g, h, start, len - 1);
    }
  }

  /** The encoder the decoder inverts: stores the low len bits of v,
      least significant first, at the virtual indices start .. start + len - 1. */
  function WriteBits(g: Genome, start: nat, len: nat, v: nat): (r: Genome)
    requires InReach(start, len)
    decreases len
  {
    if len == 0 then g
    else WriteBits(g, start, len - 1, v % Pow2(len - 1))[WrappedIndex(start + len - 1, GenomeLength) := (v / Pow2(len - 1)) % 2]
  }

  /** Two virtual indices less than one lap apart name different bits. */
  lemma DistinctSlots(i: nat, j: nat)
    requires i < j < i + GenomeLength && j < 2 * GenomeLength
    ensures i % GenomeLength != j % GenomeLength
  {
    WrappedIndexIsModulo(i, GenomeLength);
    WrappedIndexIsModulo(j, GenomeLength);
  }

  /** Writing a field leaves every bit outside it as it was. */
  lemma {:induction false} WriteBitsFrame(g: Genome, start: nat, len: nat, v: nat, i: nat)
    requires InReach(start, len) && i < 2 * GenomeLength
    requires forall k :: start <= k < start + len ==> k % GenomeLength != i % GenomeLength
    ensures GeneAt(WriteBits(g, start, len, v), i) == GeneAt(g, i)
    decreases len
  {
    if len > 0 {
      WriteBitsFrame(g, start, len - 1, v % Pow2(len - 1), i);
      WrappedIndexIsModulo(start + len - 1, GenomeLength);
    }
  }

  lemma TopBit(v: nat, p: nat)
    requires p >= 1 && v < 2 * p
    ensures v / p <= 1
    ensures (v / p) % 2 == v / p
    ensures v == v % p + p * (v / p)
  {
    var q := v / p;
    assert q <= 1;
    if q == 0 { assert q % 2 == 0; } else { assert q % 2 == 1; }
  }

  /** The last bit WriteBits stores is the top bit of v. */
  lemma WriteBitsTop(g: Genome, start: nat, len: nat, v: nat)
    requires InReach(start, len) && len >= 1 && v < Pow2(len)
    ensures GeneAt(WriteBits(g, start, len, v), start + len - 1) == v / Pow2(len - 1)
  {
    var p := Pow2(len - 1);
    var top := start + len - 1;
    var below := WriteBits(g, start, len - 1, v % p);
    assert Pow2(len) == 2 * p;
    TopBit(v, p);
    var b: Bit := (v / p) % 2;
    var slot := WrappedIndex(top, GenomeLength);
    WrappedIndexIsModulo(top, GenomeLength);
    assert WriteBits(g, start, len, v) == below[slot := b];
    assert below[slot := b][top % GenomeLength] == b;
  }

  /** Storing the top bit of a field leaves the bits below it readable as before. */
  lemma WriteTopKeepsLower(g: Genome, start: nat, len: nat, v: nat)
    requires InReach(start, len) && 1 <= len <= GenomeLength
    ensures UnsignedIntFromGenome(WriteBits(g, start, len, v), start, len - 1)
         == UnsignedIntFromGenome(WriteBits(g, start, len - 1, v % Pow2(len - 1)), start, len - 1)
  {
    var top := start + len - 1;
    var below := WriteBits(g, start, len - 1, v % Pow2(len - 1));
    var r := WriteBits(g, start, len, v);
    WrappedIndexIsModulo(top, GenomeLength);
    forall k | start <= k < top
      ensures GeneAt(r, k) == GeneAt(below, k)
    {
      DistinctSlots(k, top);
    }
    UnsignedIntFromGenomeFrame(r, below, start, len - 1);
  }

  /** Round trip: reading back a field just written yields the value written,
      when the value fits the field and the field is at most one lap long. */
  lemma {:induction false} ReadAfterWrite(g: Genome, start: nat, len: nat, v: nat)
    requires InReach(start, len) && len <= GenomeLength && v < Pow2(len)
    ensures UnsignedIntFromGenome(WriteBits(g, start, len, v), start, len) == v
    decreases len
  {
    if len > 0 {
      var p := Pow2(len - 1);
      ReadAfterWrite(g, start, len - 1, v % p);
      WriteTopKeepsLower(g, start, len, v);
      WriteBitsTop(g, start, len, v);
      TopBit(v, p);
    }
  }

  /** Writing one field leaves a field that lies wholly before it, within one
      lap, readable as before. */
  lemma ReadPastLaterWrite(g: Genome, s1: nat, l1: nat, s2: nat, l2: nat, v: nat)
    requires InReach(s1, l1) && InReach(s2, l2)
    requires s1 + l1 <= s2 && s2 + l2 <= s1 + GenomeLength
    ensures UnsignedIntFromGenome(WriteBits(g, s2, l2, v), s1, l1) == UnsignedIntFromGenome(g, s1, l1)
  {
    var r := WriteBits(g, s2, l2, v);
    forall i | s1 <= i < s1 + l1
      ensures GeneAt(r, i) == GeneAt(g, i)
    {
      forall k | s2 <= k < s2 + l2
        ensures k % GenomeLength != i % GenomeLength
      {
        DistinctSlots(i, k);
      }
      WriteBitsFrame(g, s2, l2, v, i);
    }
    UnsignedIntFromGenomeFrame(r, g, s1, l1);
  }

}
