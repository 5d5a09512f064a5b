# The evolution of culture: a Dafny model of the genome and grid core

`2010/teoc.c` simulates organisms on an 80 by 40 toroidal grid. Each organism
carries a 256-bit genome that describes its own behaviour. The first four
bytes of the genome are a header. Header slot *i* holds the 8-bit address
where gene *i* starts. The genes are:

- display: red, green and blue, 8 bits each;
- meet: an address and a length, 8 bits each;
- move: a magnitude bit and a sign bit per axis;
- personality: one extrovert bit.

Each tick, every organism tries one step in the direction of its move gene.
If the target cell is empty, it moves there. If the target is occupied:

- an extrovert meets the occupant instead;
- anyone else tries the mirrored step, and stays put if that cell is occupied too.

In a meeting, the mover's first `length` bits are copied into the occupant's
genome, starting at index 0. Each copied bit can be replaced by a fresh random
bit. That happens on a one-in-100000 draw, or whenever the wall clock modulo 16
is 0 (the "pandemic"). After the copy, a coin decides whether the two
organisms trade cells.

The model is split into modules:

- `Genome` (genome.dfy): bit strings and the single-wrap index. It reads a
  little-endian unsigned value from consecutive wrapped bits. It also has the
  encoder `WriteBits`, which that read inverts.
- `Genes` (genes.dfy): the header lookup, the four gene decoders and one
  encoder per gene, with a round-trip lemma for each.
- `Display` (display.dfy): the colour bucket used when an organism is drawn.
- `Draws` (draws.dfy): the random values and clock readings the C code
  consumes. Each one is an input value, and the model applies the source's
  reductions (`% 100000`, `% 16`, `% 2`, `% 80`, `% 40`, `% 6`) to it.
- `Grid` (grid.dfy): the world and the organisms on it. The grid is a
  `map<Pos, Handle>` holding only occupied cells, so no two organisms can
  share a cell. Organisms live in an arena (`seq<Organism>`), and a handle is
  an index into it. This module also holds world creation, the empty-cell
  search, organism creation and destruction, relocation and the swap.
- `Step` (step.dfy): genome transfer, `MeetOrganism`, `MoveOrganism` and a
  tick that moves every organism once.

The central invariant is `Grid.Consistent`. Every occupied cell is in bounds
and holds an organism whose position field names that cell. Every mutator
preserves it. `Grid.OccupiedCellsCountLive` proves that the number of occupied
cells equals the number of live organisms. Relocation, meetings and ticks
preserve the set of live organisms (`SameLive`).

The model keeps these loose behaviours of the code as they are:

- `wrapped_index` wraps only once, and on out-of-range input it returns a
  wrong index instead of an error.
- The meet gene's `address` field is decoded but never used: the copy always
  starts at genome index 0 (`Step.Transfer`).
- An extrovert organism whose move gene is (0, 0) targets its own occupied
  cell and meets itself. `Step.SelfMeetKeepsGrid` shows that the grid is then
  unchanged.

## Model

| member | source | states |
|---|---|---|
| Genome.WrappedIndex | 2010/teoc.c:349-361 | for an index in [-range, 2*range) the result is a valid index in [0, range); indices already in [0, range) are returned unchanged |
| Genome.WrappedIndexIsModulo | 2010/teoc.c:349-361 | on [-range, 2*range) the single add-or-subtract agrees with the true remainder i mod range |
| Genome.WrappedIndexSingleWrap | 2010/teoc.c:349-361 | it is not a modulo: from 2*range upwards the result is still at least range, and below -range it is negative |
| Genome.GeneAt | 2010/teoc.c:166-173 | reading a virtual index below 512 returns the genome bit at that index modulo 256 |
| Genome.UnsignedIntFromGenome | 2010/teoc.c:328-347 | the little-endian value of len wrapped bits is below 2^len |
| Genome.ReadUnsigned | 2010/teoc.c:328-347 | the doubling-weight loop computes exactly the sum of bit(start+k) * 2^k over k < len, and that sum is below 2^len |
| Genome.UnsignedIntFromGenomeFrame | 2010/teoc.c:328-347 | two genomes that agree on the bits a field covers decode that field to the same value |
| Genome.ReadAfterWrite | 2010/teoc.c:328-347 | decoding a field of at most 256 bits after `WriteBits` stored a value below 2^len returns that value |
| Genes.GeneStartAddress | 2010/teoc.c:175-186 | a gene start address is always a valid genome index (below 256) |
| Genes.GeneStartAddressLocal | 2010/teoc.c:175-186 | for genes 0..3 the start address depends only on genome bits 8*i .. 8*i+7; changing any other bit leaves it unchanged |
| Genes.GeneStartAddressRoundTrip | 2010/teoc.c:175-186 | writing an address below 256 into header slot i makes it gene i's start address |
| Genes.ParseDisplayGene | 2010/teoc.c:270-279 | each decoded channel is an 8-bit value |
| Genes.DisplayGeneRoundTrip | 2010/teoc.c:270-279 | writing three 8-bit channels at offsets 0, 8 and 16 and decoding them gives back the same channels |
| Genes.ParseMeetGene | 2010/teoc.c:281-288 | decoded address and length are both below 256 |
| Genes.MeetGeneRoundTrip | 2010/teoc.c:281-288 | writing an address and a length at offsets 0 and 8 and decoding gives back both fields |
| Genes.ParseMoveGene | 2010/teoc.c:290-314 | each offset is -1, 0 or 1; it is 0 exactly when its magnitude bit is 0, whatever the sign bit; it is -1 exactly when magnitude and sign bits are both 1 |
| Genes.MoveGeneRoundTrip | 2010/teoc.c:290-314 | every move gene with offsets in {-1, 0, 1}, once written as magnitude and sign bits, decodes back to itself |
| Genes.ParsePersonalityGene | 2010/teoc.c:316-321 | the organism is an extrovert exactly when the gene's first bit is 1 |
| Genes.PersonalityGeneRoundTrip | 2010/teoc.c:316-321 | writing the extrovert flag and decoding it gives it back |
| Display.Bucket | 2010/teoc.c:137-148 | 'r' iff red strictly exceeds both green and blue; 'g' and 'b' likewise for green and blue; 'w' iff no channel strictly exceeds the other two, ties included |
| Display.DisplayColor | 2010/teoc.c:127-151 | 'r' iff red exceeds both green and blue; 'g' iff green strictly exceeds both others; 'b' iff blue does; 'w' iff no channel strictly exceeds the other two, ties included |
| Display.AtMostOneWinner | 2010/teoc.c:137-148 | no two channels can both strictly exceed the other two, so the if-chain's order never matters |
| Display.RedScenario | 2010/teoc.c:127-151 | a genome with display gene (200, 10, 5) written where its header points is drawn red |
| Display.TieScenario | 2010/teoc.c:127-151 | a genome with display gene (10, 10, 0) written where its header points, a tie for the largest channel, is drawn white |
| Display.DisplayGeneThroughHeader | 2010/teoc.c:133-135 | a display gene written at the address in header slot 0, clear of that slot, is the gene the colour is computed from |
| Draws.RandomBelow | 2010/teoc.c:323-326 | a reduced draw is below its range, and a draw already below the range is returned unchanged |
| Grid.OneCellPerOrganism | 2010/teoc.c:62-65 | in a consistent world two cells holding the same organism are the same cell |
| Grid.OccupiedCellsCountLive | 2010/teoc.c:62-65 | in a consistent world the number of occupied cells equals the number of live organisms |
| Grid.CreateWorld | 2010/teoc.c:109-119 | the new world is consistent, every in-bounds cell is empty and no organism is live |
| Grid.SamplePos | 2010/teoc.c:159-160 | every sampled cell is inside the 80 by 40 grid |
| Grid.FirstEmptySample | 2010/teoc.c:158-161 | the rejection loop stops at the first sample landing on an empty cell: every earlier sample landed on an occupied one |
| Grid.FindEmptyPosition | 2010/teoc.c:153-164 | a found position is in bounds, empty and one of the samples; nothing is found exactly when every sample lands on an occupied cell |
| Grid.CreateOrganism | 2010/teoc.c:93-107 | on success the world stays consistent, the new organism is live on a previously empty cell with its drawn genome, older organisms are untouched and one more cell is occupied; it fails exactly when every sample is occupied |
| Grid.CreateOrganismAddsLive | 2010/teoc.c:93-107 | creating an organism adds exactly its handle to the live organisms |
| Grid.DestroyOrganism | 2010/teoc.c:121-125 | the cell the organism's position names becomes empty, whoever occupied it, so the organism is no longer live; no organism becomes live; if it was live every other live organism stays live and one fewer cell is occupied; every other cell keeps its occupant and no cell fills |
| Grid.Relocate | 2010/teoc.c:247-251 | moving into an empty cell keeps the world consistent and the live set; the mover is at the new cell, its old cell is empty, no other cell changes and the occupied count is unchanged |
| Grid.Swap | 2010/teoc.c:211-220 | exchanging two organisms keeps the world consistent, the live set and the set of occupied cells, and exchanges their position fields |
| Grid.SwapKeepsRest | 2010/teoc.c:211-220 | each of the two cells now holds the other organism; every other cell, every genome and face, and every other organism is unchanged |
| Step.MeetLength | 2010/teoc.c:198-201 | a meeting copies fewer than 256 bits, so index 255 is never copied |
| Step.Target | 2010/teoc.c:244-245 | a step of at most one cell per axis from an in-bounds cell lands in bounds, at (x+dx) mod 80, (y+dy) mod 40 |
| Step.Transfer | 2010/teoc.c:201-209 | after n iterations of the copy loop, bits below n are the source bits (or fresh bits where a mutation fires) and bits from n on are unchanged |
| Step.MeetOrganism | 2010/teoc.c:188-221 | a meeting keeps the world consistent, the live set and the set of occupied cells |
| Step.MeetTransfersGenes | 2010/teoc.c:198-209 | b's bits below a's meet length become a's bits, or a fresh bit where a point mutation or the pandemic fires; b's remaining bits are unchanged |
| Step.MeetKeepsOtherGenomes | 2010/teoc.c:201-209 | no genome other than b's changes (so a's is unchanged when a differs from b), and no face changes |
| Step.MeetPositions | 2010/teoc.c:211-220 | when the swap coin fires the two organisms' cells and position fields are exchanged together and every other cell keeps its occupant; otherwise the grid and every position are unchanged |
| Step.MoveOrganism | 2010/teoc.c:223-268 | a move keeps the world consistent, the live set and the number of occupied cells |
| Step.MoveIntoEmptyTarget | 2010/teoc.c:242-251 | with an empty target the organism ends on the target, its old cell empties, no other cell changes and no genome changes |
| Step.MoveBlockedIntrovert | 2010/teoc.c:252-266 | a blocked non-extrovert moves to the mirrored cell when that is empty; otherwise the world is left exactly as it was |
| Step.MoveBlockedExtrovert | 2010/teoc.c:252-254 | a blocked extrovert meets the occupant: the occupant receives the mover's leading bits, no cell empties or fills, and the mover stays put unless the swap coin fires, in which case it ends on the target cell |
| Step.TargetMoves | 2010/teoc.c:244-245 | on the 80 by 40 torus the target is the current cell exactly when both offsets are 0 |
| Step.SelfMeetKeepsGrid | 2010/teoc.c:211-220 | an organism meeting itself leaves the grid and its own position unchanged, swap or not |
| Step.ZeroOffsetStays | 2010/teoc.c:242-266 | with move gene (0, 0) the organism never leaves its cell and the grid is unchanged, whether or not it is an extrovert |
| Step.CornerStepScenario | 2010/teoc.c:244-245 | from (0, 0) a step of (1, -1) lands on (1, 39) |
| Step.MoveGeneScenario | 2010/teoc.c:298-313 | move bits 1, 0, 1, 1 decode to the step (1, -1) |
| Step.TickFrom | 2010/teoc.c:381-384 | moving the organisms from a given handle onwards in order keeps the world consistent, every organism live, and the live set and occupied count unchanged |
| Step.Tick | 2010/teoc.c:380-384 | a full tick keeps the world consistent, every organism live and the number of occupied cells unchanged |

## Left out

- The endless `main` loop's drawing and pacing are not modelled: `putchar`, the glyph tables at 2010/teoc.c:21-23 and `usleep`. This is terminal output. The model stops at the colour bucket. The drawing code also leaves `face` unset for the white bucket, so it prints a stale glyph; this is never modelled.
- `srandom`, `random` and `time` are not modelled. Every value they would return is an input: a `BitDraw` per copied bit, a swap draw, sample pairs, genome bit draws and a face draw. The order in which draws come out of the shared generator is not modelled.
- `malloc` and `free` of the genome are not modelled. A genome is an immutable `seq` of 256 bits, and `DestroyOrganism` only vacates the cell.
- The initial population loop (2010/teoc.c:377-379) is not modelled, and neither is the final destroy loop (2010/teoc.c:413-415), which is unreachable. `CreateOrganism` and `DestroyOrganism` model one call each.
- `find_empty_position` retries without bound. The model replaces this with a finite list of samples. Running out of samples yields `None`.
- `parse_move_gene_2` is declared at 2010/teoc.c:84-85 but never defined or called. It is not part of this model.
- Genome.WrappedIndex: returns a mathematical integer. Outside [-range, 2*range) the C function returns a wrong index, converted to `unsigned int`. That conversion is not modelled, because no call site leaves the domain.
- Genome.UnsignedIntFromGenome: the 32-bit accumulator's wrap-around for fields wider than 32 bits is not modelled. Every call site reads at most 8 bits.
- Step.Target: adding a negative `int` offset to an `unsigned` coordinate, then converting back to `int`, is modelled with mathematical integers. This gives the same result for every in-bounds coordinate.
