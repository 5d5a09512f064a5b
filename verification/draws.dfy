/** The random and clock values the simulation consumes. The generator itself
    is not modelled: each value it would return is an input, and only the
    source's reductions of those values (modulo its constants) are modelled. */
module Draws {
  import opened Genome

  /** A copied bit mutates when a draw modulo this is 0 (one in 100000). */
  const MutationIncidencePer: nat := 100000
  /** Every copied bit mutates while the wall clock modulo this is 0. */
  const PandemicModulus: nat := 16
  /** Two meeting organisms swap cells when a draw modulo this is 0. */
  const SwapPositionsModulus: nat := 2

  /** A random number below range, from one raw draw of the generator. */
  function RandomBelow(draw: nat, range: nat): (r: nat)
    requires range > 0
    ensures r < range
    ensures draw < range ==> r == draw
  {
    draw % range
  }

  /** What one bit copy in a meeting consumes: the mutation draw, the wall
      clock read for the pandemic test, and the draw for a fresh bit. */
  datatype BitDraw = BitDraw(mutationDraw: nat, clock: nat, freshDraw: nat)

  /** Point mutation or pandemic: either one rewrites the copied bit. */
  predicate Mutates(d: BitDraw) {
    RandomBelow(d.mutationDraw, MutationIncidencePer) == 0 || d.clock % PandemicModulus == 0
  }

  function FreshBit(d: BitDraw): Bit {
    RandomBelow(d.freshDraw, 2)
  }

  /** One draw per copied bit; a meeting copies fewer than GenomeLength bits. */
  type BitDraws = s: seq<BitDraw> | |s| == GenomeLength witness seq(GenomeLength, _ => BitDraw(1, 1, 0))

  /** Everything a meeting consumes. */
  datatype MeetDraws = MeetDraws(bits: BitDraws, swapDraw: nat)

  predicate SwapFires(d: MeetDraws) {
    RandomBelow(d.swapDraw, SwapPositionsModulus) == 0
  }

}
