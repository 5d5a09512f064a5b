/** The colour bucket an organism is drawn in: the channel of its display gene
    that strictly exceeds both others, or white when no channel does. */
module Display {
  import opened Genome
  import opened Genes

  /** The display gene found through header slot GeneIndexDisplay. */
  function DisplayGeneOf(g: Genome): DisplayGene
  {
    ParseDisplayGene(g, GeneStartAddress(g, GeneIndexDisplay))
  }

  predicate RedWins(d: DisplayGene) { d.red > d.green && d.red > d.blue }
  predicate GreenWins(d: DisplayGene) { d.green > d.red && d.green > d.blue }
  predicate BlueWins(d: DisplayGene) { d.blue > d.red && d.blue > d.green }

  /** At most one channel can strictly exceed both others. */
  lemma AtMostOneWinner(d: DisplayGene)
    ensures !(RedWins(d) && GreenWins(d))
    ensures !(RedWins(d) && BlueWins(d))
    ensures !(GreenWins(d) && BlueWins(d))
  {
  }

  /** 'r', 'g' or 'b' for the channel that strictly exceeds both others, and
      'w' whenever there is none, ties included. */
  function Bucket(d: DisplayGene): (c: char)
    ensures c == 'r' <==> RedWins(d)
    ensures c == 'g' <==> GreenWins(d)
    ensures c == 'b' <==> BlueWins(d)
    ensures c == 'w' <==> !RedWins(d) && !GreenWins(d) && !BlueWins(d)
  {
    if d.red > d.blue && d.red > d.green then 'r'
    else if d.green > d.red && d.green > d.blue then 'g'
    else if d.blue > d.green && d.blue > d.red then 'b'
    else 'w'
  }

  /** The colour an organism is drawn in, from the display gene its header
      points at. */
  function DisplayColor(g: Genome): (c: char)
    ensures c == 'r' <==> RedWins(DisplayGeneOf(g))
    ensures c == 'g' <==> GreenWins(DisplayGeneOf(g))
    ensures c == 'b' <==> BlueWins(DisplayGeneOf(g))
    ensures c == 'w' <==> !RedWins(DisplayGeneOf(g)) && !GreenWins(DisplayGeneOf(g)) && !BlueWins(DisplayGeneOf(g))
  {
    Bucket(DisplayGeneOf(g))
  }

  /** Writing a display gene at the address held in the display header slot,
      clear of that slot, makes it the genome's display gene. */
  lemma DisplayGeneThroughHeader(g: Genome, d: DisplayGene)
    requires d.red < GenomeLength && d.green < GenomeLength && d.blue < GenomeLength
    requires GenomeAddressSize <= GeneStartAddress(g, GeneIndexDisplay) <= GenomeLength - DisplayGeneBits
    ensures DisplayGeneOf(EncodeDisplayGene(g, GeneStartAddress(g, GeneIndexDisplay), d)) == d
  {
    var s := GeneStartAddress(g, GeneIndexDisplay);
    var withRed := WriteBits(g, s, FieldBits, d.red);
    var withGreen := WriteBits(withRed, s + FieldBits, FieldBits, d.green);
    ReadPastLaterWrite(g, 0, GenomeAddressSize, s, FieldBits, d.red);
    ReadPastLaterWrite(withRed, 0, GenomeAddressSize, s + FieldBits, FieldBits, d.green);
    ReadPastLaterWrite(withGreen, 0, GenomeAddressSize, s + 2 * FieldBits, FieldBits, d.blue);
    DisplayGeneRoundTrip(g, s, d);
  }

  /** A genome whose display gene, found through its header, is (200, 10, 5)
      is drawn red. */
  lemma RedScenario(g: Genome)
    requires GenomeAddressSize <= GeneStartAddress(g, GeneIndexDisplay) <= GenomeLength - DisplayGeneBits
    ensures DisplayColor(EncodeDisplayGene(g, GeneStartAddress(g, GeneIndexDisplay), DisplayGene(200, 10, 5))) == 'r'
  {
    DisplayGeneThroughHeader(g, DisplayGene(200, 10, 5));
  }

  /** A tie for the largest channel, as in (10, 10, 0), is drawn white. */
  lemma TieScenario(g: Genome)
    requires GenomeAddressSize <= GeneStartAddress(g, GeneIndexDisplay) <= GenomeLength - DisplayGeneBits
    ensures DisplayColor(EncodeDisplayGene(g, GeneStartAddress(g, GeneIndexDisplay), DisplayGene(10, 10, 0))) == 'w'
  {
    DisplayGeneThroughHeader(g, DisplayGene(10, 10, 0));
  }

}
