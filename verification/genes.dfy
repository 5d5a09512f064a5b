/** The four typed genes of teoc.c. Each gene's start address is itself stored
    in the genome, in an 8-bit header slot; the decoders read fixed fields
    from that address. Encoders write the same layout, so that every decoder
    has an inverse to be checked against. */
module Genes {
  import opened Genome

  const GeneIndexDisplay: nat := 0
  const GeneIndexMeet: nat := 1
  const GeneIndexMove: nat := 2
  const GeneIndexPersonality: nat := 3
  const GeneCount: nat := 4

  /** Width in bits of every display channel and meet field. */
  const FieldBits: nat := 8

  /** Bits each gene spans from its start address. */
  const DisplayGeneBits: nat := 24
  const MeetGeneBits: nat := 16
  const MoveGeneBits: nat := 4
  const PersonalityGeneBits: nat := 1

  datatype DisplayGene = DisplayGene(red: nat, green: nat, blue: nat)

  /** address is decoded but the transfer during a meeting never uses it. */
  datatype MeetGene = MeetGene(address: nat, length: nat)

  datatype MoveGene = MoveGene(offsetX: int, offsetY: int)

  datatype PersonalityGene = PersonalityGene(extrovert: bool)

  lemma FieldBitsRange()
    ensures Pow2(FieldBits) == GenomeLength
  {
  }

  // ---------------------------------------------------------------- header

  /** Where gene geneIndex starts: the 8-bit value held in header slot
      geneIndex, at virtual indices 8 * geneIndex .. 8 * geneIndex + 7. */
  function GeneStartAddress(g: Genome, geneIndex: nat): (r: nat)
    requires InReach(GenomeAddressSize * geneIndex, GenomeAddressSize)
    ensures r < GenomeLength
  {
    FieldBitsRange();
    UnsignedIntFromGenome(g, GenomeAddressSize * geneIndex, GenomeAddressSize)
  }

  /** A gene's start address depends on its own header slot and on no other bit. */
  lemma GeneStartAddressLocal(g: Genome, h: Genome, geneIndex: nat)
    requires geneIndex < GeneCount
    requires g[GenomeAddressSize * geneIndex .. GenomeAddressSize * (geneIndex + 1)]
          == h[GenomeAddressSize * geneIndex .. GenomeAddressSize * (geneIndex + 1)]
    ensures GeneStartAddress(g, geneIndex) == GeneStartAddress(h, geneIndex)
  {
    var s := GenomeAddressSize * geneIndex;
    forall k | s <= k < s + GenomeAddressSize
      ensures GeneAt(g, k) == GeneAt(h, k)
    {
      assert g[k] == g[s .. s + GenomeAddressSize][k - s];
    }
    UnsignedIntFromGenomeFrame(g, h, s, GenomeAddressSize);
  }

  /** Writing an address into a header slot makes it that gene's start address. */
  lemma GeneStartAddressRoundTrip(g: Genome, geneIndex: nat, address: nat)
    requires geneIndex < GeneCount && address < GenomeLength
    ensures GeneStartAddress(WriteBits(g, GenomeAddressSize * geneIndex, GenomeAddressSize, address), geneIndex) == address
  {
    FieldBitsRange();
    ReadAfterWrite(g, GenomeAddressSize * geneIndex, GenomeAddressSize, address);
  }

  // ---------------------------------------------------------------- decoders

  /** Red, green and blue are consecutive 8-bit fields. */
  function ParseDisplayGene(g: Genome, start: nat): (d: DisplayGene)
    requires InReach(start, DisplayGeneBits)
    ensures d.red < GenomeLength && d.green < GenomeLength && d.blue < GenomeLength
  {
    FieldBitsRange();
    DisplayGene(UnsignedIntFromGenome(g, start, FieldBits),
                UnsignedIntFromGenome(g, start + FieldBits, FieldBits),
                UnsignedIntFromGenome(g, start + 2 * FieldBits, FieldBits))
  }

  /** Address then length, each an 8-bit field. */
  function ParseMeetGene(g: Genome, start: nat): (m: MeetGene)
    requires InReach(start, MeetGeneBits)
    ensures m.address < GenomeLength && m.length < GenomeLength
  {
    FieldBitsRange();
    MeetGene(UnsignedIntFromGenome(g, start, FieldBits),
             UnsignedIntFromGenome(g, start + FieldBits, FieldBits))
  }

  /** One axis of a move: the magnitude, negated when the sign bit is set. */
  function SignedOffset(magnitude: nat, isNegative: nat): int
  {
    if isNegative != 0 then -1 * magnitude else magnitude
  }

  /** Magnitude and sign bit for x, then for y. */
  function ParseMoveGene(g: Genome, start: nat): (m: MoveGene)
    requires InReach(start, MoveGeneBits)
    ensures -1 <= m.offsetX <= 1 && -1 <= m.offsetY <= 1
    ensures m.offsetX == 0 <==> GeneAt(g, start) == 0
    ensures m.offsetX == -1 <==> GeneAt(g, start) == 1 && GeneAt(g, start + 1) == 1
    ensures m.offsetY == 0 <==> GeneAt(g, start + 2) == 0
    ensures m.offsetY == -1 <==> GeneAt(g, start + 2) == 1 && GeneAt(g, start + 3) == 1
  {
    var offsetX := UnsignedIntFromGenome(g, start, 1);
    var isNegativeX := UnsignedIntFromGenome(g, start + 1, 1);
    var offsetY := UnsignedIntFromGenome(g, start + 2, 1);
    var isNegativeY := UnsignedIntFromGenome(g, start + 3, 1);
    MoveGene(SignedOffset(offsetX, isNegativeX), SignedOffset(offsetY, isNegativeY))
  }

  /** A single extrovert bit. */
  function ParsePersonalityGene(g: Genome, start: nat): (p: PersonalityGene)
    requires InReach(start, PersonalityGeneBits)
    ensures p.extrovert <==> GeneAt(g, start) == 1
  {
    PersonalityGene(UnsignedIntFromGenome(g, start, 1) != 0)
  }

  // ---------------------------------------------------------------- encoders

  function EncodeDisplayGene(g: Genome, start: nat, d: DisplayGene): Genome
    requires InReach(start, DisplayGeneBits)
  {
    var withRed := WriteBits(g, start, FieldBits, d.red);
    var withGreen := WriteBits(withRed, start + FieldBits, FieldBits, d.green);
    WriteBits(withGreen, start + 2 * FieldBits, FieldBits, d.blue)
  }

  function EncodeMeetGene(g: Genome, start: nat, m: MeetGene): Genome
    requires InReach(start, MeetGeneBits)
  {
    WriteBits(WriteBits(g, start, FieldBits, m.address), start + FieldBits, FieldBits, m.length)
  }

  function MagnitudeBit(offset: int): nat {
    if offset == 0 then 0 else 1
  }

  function SignBit(offset: int): nat {
    if offset < 0 then 1 else 0
  }

  function EncodeMoveGene(g: Genome, start: nat, m: MoveGene): Genome
    requires InReach(start, MoveGeneBits)
  {
    var g1 := WriteBits(g, start, 1, MagnitudeBit(m.offsetX));
    var g2 := WriteBits(g1, start + 1, 1, SignBit(m.offsetX));
    var g3 := WriteBits(g2, start + 2, 1, MagnitudeBit(m.offsetY));
    WriteBits(g3, start + 3, 1, SignBit(m.offsetY))
  }

  function EncodePersonalityGene(g: Genome, start: nat, p: PersonalityGene): Genome
    requires InReach(start, PersonalityGeneBits)
  {
    WriteBits(g, start, 1, if p.extrovert then 1 else 0)
  }

  // ---------------------------------------------------------------- round trips

  lemma DisplayGeneRoundTrip(g: Genome, start: nat, d: DisplayGene)
    requires InReach(start, DisplayGeneBits)
    requires d.red < GenomeLength && d.green < GenomeLength && d.blue < GenomeLength
    ensures ParseDisplayGene(EncodeDisplayGene(g, start, d), start) == d
  {
    FieldBitsRange();
    var withRed := WriteBits(g, start, FieldBits, d.red);
    var withGreen := WriteBits(withRed, start + FieldBits, FieldBits, d.green);
    var r := WriteBits(withGreen, start + 2 * FieldBits, FieldBits, d.blue);
    ReadAfterWrite(g, start, FieldBits, d.red);
    ReadPastLaterWrite(withRed, start, FieldBits, start + FieldBits, FieldBits, d.green);
    ReadPastLaterWrite(withGreen, start, FieldBits, start + 2 * FieldBits, FieldBits, d.blue);
    ReadAfterWrite(withRed, start + FieldBits, FieldBits, d.green);
    ReadPastLaterWrite(withGreen, start + FieldBits, FieldBits, start + 2 * FieldBits, FieldBits, d.blue);
    ReadAfterWrite(withGreen, start + 2 * FieldBits, FieldBits, d.blue);
  }

  lemma MeetGeneRoundTrip(g: Genome, start: nat, m: MeetGene)
    requires InReach(start, MeetGeneBits)
    requires m.address < GenomeLength && m.length < GenomeLength
    ensures ParseMeetGene(EncodeMeetGene(g, start, m), start) == m
  {
    FieldBitsRange();
    var withAddress := WriteBits(g, start, FieldBits, m.address);
    ReadAfterWrite(g, start, FieldBits, m.address);
    ReadPastLaterWrite(withAddress, start, FieldBits, start + FieldBits, FieldBits, m.length);
    ReadAfterWrite(withAddress, start + FieldBits, FieldBits, m.length);
  }

  /** Every move gene with offsets in {-1, 0, 1} decodes back from its encoding. */
  lemma MoveGeneRoundTrip(g: Genome, start: nat, m: MoveGene)
    requires InReach(start, MoveGeneBits)
    requires -1 <= m.offsetX <= 1 && -1 <= m.offsetY <= 1
    ensures ParseMoveGene(EncodeMoveGene(g, start, m), start) == m
  {
    var g1 := WriteBits(g, start, 1, MagnitudeBit(m.offsetX));
    var g2 := WriteBits(g1, start + 1, 1, SignBit(m.offsetX));
    var g3 := WriteBits(g2, start + 2, 1, MagnitudeBit(m.offsetY));
    var r := WriteBits(g3, start + 3, 1, SignBit(m.offsetY));
    ReadAfterWrite(g, start, 1, MagnitudeBit(m.offsetX));
    ReadPastLaterWrite(g1, start, 1, start + 1, 1, SignBit(m.offsetX));
    ReadPastLaterWrite(g2, start, 1, start + 2, 1, MagnitudeBit(m.offsetY));
    ReadPastLaterWrite(g3, start, 1, start + 3, 1, SignBit(m.offsetY));
    ReadAfterWrite(g1, start + 1, 1, SignBit(m.offsetX));
    ReadPastLaterWrite(g2, start + 1, 1, start + 2, 1, MagnitudeBit(m.offsetY));
    ReadPastLaterWrite(g3, start + 1, 1, start + 3, 1, SignBit(m.offsetY));
    ReadAfterWrite(g2, start + 2, 1, MagnitudeBit(m.offsetY));
    ReadPastLaterWrite(g3, start + 2, 1, start + 3, 1, SignBit(m.offsetY));
    ReadAfterWrite(g3, start + 3, 1, SignBit(m.offsetY));
  }

  lemma PersonalityGeneRoundTrip(g: Genome, start: nat, p: PersonalityGene)
    requires InReach(start, PersonalityGeneBits)
    ensures ParsePersonalityGene(EncodePersonalityGene(g, start, p), start) == p
  {
    ReadAfterWrite(g, start, 1, if p.extrovert then 1 else 0);
  }

}
