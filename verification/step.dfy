/** One simulation step: moving an organism by its move gene across the torus,
    and the meeting in which one organism overwrites a prefix of another's
    genome and may trade cells with it. */
module Step {
  import opened Genome
  import opened Genes
  import opened Draws
  import opened Grid

  function MoveGeneOf(g: Genome): MoveGene {
    ParseMoveGene(g, GeneStartAddress(g, GeneIndexMove))
  }

  function IsExtrovert(g: Genome): bool {
    ParsePersonalityGene(g, GeneStartAddress(g, GeneIndexPersonality)).extrovert
  }

  /** The number of leading genome bits an organism passes on when it meets another. */
  function MeetLength(g: Genome): (n: nat)
    ensures n < GenomeLength
  {
    ParseMeetGene(g, GeneStartAddress(g, GeneIndexMeet)).length
  }

  /** The cell one step of (dx, dy) away on the torus. */
  function Target(p: Pos, dx: int, dy: int): (t: Pos)
    requires InBounds(p) && -1 <= dx <= 1 && -1 <= dy <= 1
    ensures InBounds(t)
    ensures t.x == (p.x + dx) % WorldWidth && t.y == (p.y + dy) % WorldHeight
  {
    WrappedIndexIsModulo(p.x + dx, WorldWidth);
    WrappedIndexIsModulo(p.y + dy, WorldHeight);
    Pos(WrappedIndex(p.x + dx, WorldWidth), WrappedIndex(p.y + dy, WorldHeight))
  }

  /** The bit that lands in the receiving genome: the source bit, unless a
      point mutation or the pandemic replaces it with a fresh one. */
  function CopiedBit(source: Bit, d: BitDraw): Bit {
    if Mutates(d) then FreshBit(d) else source
  }

  /** The receiving genome after the first n iterations of the copy loop.
      The copy always starts at index 0: the meet gene's address field plays
      no part. */
  function Transfer(a: Genome, b: Genome, n: nat, d: BitDraws): (r: Genome)
    requires n <= GenomeLength
    ensures forall k :: 0 <= k < n ==> r[k] == CopiedBit(a[k], d[k])
    ensures forall k :: n <= k < GenomeLength ==> r[k] == b[k]
    decreases n
  {
    if n == 0 then b
    else
      var index := WrappedIndex(n - 1, GenomeLength);
      Transfer(a, b, n - 1, d)[index := CopiedBit(a[index], d[n - 1])]
  }

  /** Organism a meets organism b: b's first MeetLength bits are overwritten
      from a's genome, each possibly mutated; then, if the swap coin fires,
      the two trade cells. a and b may be the same organism: iteration k of
      the copy reads bit k before any later iteration writes, so the copy
      still takes the original bits. */
  function MeetOrganism(w: World, a: Handle, b: Handle, d: MeetDraws): (w': World)
    requires Consistent(w) && Live(w, a) && Live(w, b)
    ensures Consistent(w') && SameLive(w, w')
    ensures w'.cells.Keys == w.cells.Keys && |w'.organisms| == |w.organisms|
  {
    var ga := w.organisms[a].genome;
    var meet := ParseMeetGene(ga, GeneStartAddress(ga, GeneIndexMeet));
    var received := WithGenome(w, b, Transfer(ga, w.organisms[b].genome, meet.length, d.bits));
    if SwapFires(d) then Swap(received, a, b) else received
  }

  /** What a meeting writes into b: its bits below a's meet length are a's
      bits passed through CopiedBit, and its remaining bits (index 255 always
      among them) are untouched. */
  lemma MeetTransfersGenes(w: World, a: Handle, b: Handle, d: MeetDraws)
    requires Consistent(w) && Live(w, a) && Live(w, b)
    ensures var w' := MeetOrganism(w, a, b, d);
            && (forall k :: 0 <= k < MeetLength(w.organisms[a].genome) ==>
                  w'.organisms[b].genome[k] == CopiedBit(w.organisms[a].genome[k], d.bits[k]))
            && (forall k :: MeetLength(w.organisms[a].genome) <= k < GenomeLength ==>
                  w'.organisms[b].genome[k] == w.organisms[b].genome[k])
  {
    var ga := w.organisms[a].genome;
    var meet := ParseMeetGene(ga, GeneStartAddress(ga, GeneIndexMeet));
    var t := Transfer(ga, w.organisms[b].genome, meet.length, d.bits);
    var received := WithGenome(w, b, t);
    if SwapFires(d) {
      SwapKeepsRest(received, a, b);
      assert MeetOrganism(w, a, b, d).organisms[b].genome == t;
    }
  }

  /** A meeting rewrites no genome but b's, and no face at all; in particular
      a's genome is unchanged when a and b differ. */
  lemma MeetKeepsOtherGenomes(w: World, a: Handle, b: Handle, d: MeetDraws)
    requires Consistent(w) && Live(w, a) && Live(w, b)
    ensures var w' := MeetOrganism(w, a, b, d);
            && (forall h :: 0 <= h < |w.organisms| && h != b ==> w'.organisms[h].genome == w.organisms[h].genome)
            && (forall h :: 0 <= h < |w.organisms| ==> w'.organisms[h].face == w.organisms[h].face)
  {
    var ga := w.organisms[a].genome;
    var meet := ParseMeetGene(ga, GeneStartAddress(ga, GeneIndexMeet));
    var received := WithGenome(w, b, Transfer(ga, w.organisms[b].genome, meet.length, d.bits));
    if SwapFires(d) {
      SwapKeepsRest(received, a, b);
    }
  }

  /** Where the meeting pair ends up: exchanged when the swap coin fires, with
      every other cell as it was; otherwise nobody moves at all. */
  lemma MeetPositions(w: World, a: Handle, b: Handle, d: MeetDraws)
    requires Consistent(w) && Live(w, a) && Live(w, b)
    ensures var w' := MeetOrganism(w, a, b, d);
            SwapFires(d) ==>
              && w'.organisms[a].position == w.organisms[b].position
              && w'.organisms[b].position == w.organisms[a].position
              && w'.cells[w.organisms[a].position] == b
              && w'.cells[w.organisms[b].position] == a
              && forall p :: p in w.cells && p != w.organisms[a].position && p != w.organisms[b].position ==>
                   w'.cells[p] == w.cells[p]
    ensures var w' := MeetOrganism(w, a, b, d);
            !SwapFires(d) ==>
              && w'.cells == w.cells
              && forall h :: 0 <= h < |w.organisms| ==> w'.organisms[h].position == w.organisms[h].position
  {
    var ga := w.organisms[a].genome;
    var meet := ParseMeetGene(ga, GeneStartAddress(ga, GeneIndexMeet));
    var received := WithGenome(w, b, Transfer(ga, w.organisms[b].genome, meet.length, d.bits));
    if SwapFires(d) {
      SwapKeepsRest(received, a, b);
    }
  }

  /** Organism h takes one step as its move gene says. An empty target cell
      is entered. A blocked extrovert meets the occupant instead; a blocked
      introvert tries the mirrored step and otherwise stays put. */
  function MoveOrganism(w: World, h: Handle, d: MeetDraws): (w': World)
    requires Consistent(w) && Live(w, h)
    ensures Consistent(w') && SameLive(w, w')
    ensures |w'.cells| == |w.cells| && |w'.organisms| == |w.organisms|
  {
    var o := w.organisms[h];
    var move := MoveGeneOf(o.genome);
    var target := Target(o.position, move.offsetX, move.offsetY);
    if target !in w.cells then Relocate(w, h, target)
    else if IsExtrovert(o.genome) then MeetOrganism(w, h, w.cells[target], d)
    else
      var mirrored := Target(o.position, -1 * move.offsetX, -1 * move.offsetY);
      if mirrored !in w.cells then Relocate(w, h, mirrored) else w
  }

  /** The cell organism h's move gene points at. */
  function TargetOf(w: World, h: Handle): Pos
    requires Consistent(w) && Live(w, h)
  {
    var o := w.organisms[h];
    Target(o.position, MoveGeneOf(o.genome).offsetX, MoveGeneOf(o.genome).offsetY)
  }

  /** The cell the mirrored step points at. */
  function MirrorOf(w: World, h: Handle): Pos
    requires Consistent(w) && Live(w, h)
  {
    var o := w.organisms[h];
    Target(o.position, -1 * MoveGeneOf(o.genome).offsetX, -1 * MoveGeneOf(o.genome).offsetY)
  }

  /** An empty target is entered: the old cell empties, no other cell changes
      and no genome changes. */
  lemma MoveIntoEmptyTarget(w: World, h: Handle, d: MeetDraws)
    requires Consistent(w) && Live(w, h) && TargetOf(w, h) !in w.cells
    ensures var w' := MoveOrganism(w, h, d);
            && w'.organisms[h].position == TargetOf(w, h)
            && w'.cells[TargetOf(w, h)] == h
            && w.organisms[h].position !in w'.cells
            && (forall p :: p != TargetOf(w, h) && p != w.organisms[h].position ==>
                  (p in w'.cells <==> p in w.cells) && (p in w.cells ==> w'.cells[p] == w.cells[p]))
            && (forall k :: 0 <= k < |w.organisms| ==> w'.organisms[k].genome == w.organisms[k].genome)
  {
  }

  /** A blocked introvert takes the mirrored step when that cell is empty, and
      otherwise leaves the world exactly as it was. */
  lemma MoveBlockedIntrovert(w: World, h: Handle, d: MeetDraws)
    requires Consistent(w) && Live(w, h) && TargetOf(w, h) in w.cells
    requires !IsExtrovert(w.organisms[h].genome)
    ensures var w' := MoveOrganism(w, h, d);
            MirrorOf(w, h) !in w.cells ==>
              && w'.organisms[h].position == MirrorOf(w, h)
              && w'.cells[MirrorOf(w, h)] == h
              && w.organisms[h].position !in w'.cells
              && forall p :: p != MirrorOf(w, h) && p != w.organisms[h].position ==>
                   (p in w'.cells <==> p in w.cells) && (p in w.cells ==> w'.cells[p] == w.cells[p])
    ensures MirrorOf(w, h) in w.cells ==> MoveOrganism(w, h, d) == w
  {
  }

  /** A blocked extrovert meets the occupant of its target: the occupant's
      leading bits come from the mover, no cell empties or fills, and the
      mover stays put unless the swap coin fires, in which case it ends on
      the target cell. */
  lemma MoveBlockedExtrovert(w: World, h: Handle, d: MeetDraws)
    requires Consistent(w) && Live(w, h) && TargetOf(w, h) in w.cells
    requires IsExtrovert(w.organisms[h].genome)
    ensures var w' := MoveOrganism(w, h, d);
            var other := w.cells[TargetOf(w, h)];
            && w'.cells.Keys == w.cells.Keys
            && (forall k :: 0 <= k < MeetLength(w.organisms[h].genome) ==>
                  w'.organisms[other].genome[k] == CopiedBit(w.organisms[h].genome[k], d.bits[k]))
            && (!SwapFires(d) ==> w'.organisms[h].position == w.organisms[h].position)
            && (SwapFires(d) ==> w'.organisms[h].position == TargetOf(w, h))
  {
    MeetPositions(w, h, w.cells[TargetOf(w, h)], d);
    MeetTransfersGenes(w, h, w.cells[TargetOf(w, h)], d);
  }

  /** A step with a non-zero offset always points at another cell. */
  lemma TargetMoves(p: Pos, dx: int, dy: int)
    requires InBounds(p) && -1 <= dx <= 1 && -1 <= dy <= 1
    ensures Target(p, dx, dy) == p <==> dx == 0 && dy == 0
  {
  }

  /** An organism that meets itself keeps its cell, and the grid is unchanged;
      only its own genome may be rewritten. */
  lemma SelfMeetKeepsGrid(w: World, h: Handle, d: MeetDraws)
    requires Consistent(w) && Live(w, h)
    ensures MeetOrganism(w, h, h, d).cells == w.cells
    ensures MeetOrganism(w, h, h, d).organisms[h].position == w.organisms[h].position
  {
    MeetPositions(w, h, h, d);
    var w' := MeetOrganism(w, h, h, d);
    if SwapFires(d) {
      assert w'.cells.Keys == w.cells.Keys;
      forall q | q in w.cells
        ensures w'.cells[q] == w.cells[q]
      {
      }
    }
  }

  /** With a zero move gene an organism never leaves its cell, and the grid is
      unchanged whether it is an extrovert (it then meets itself) or not. */
  lemma ZeroOffsetStays(w: World, h: Handle, d: MeetDraws)
    requires Consistent(w) && Live(w, h)
    requires MoveGeneOf(w.organisms[h].genome) == MoveGene(0, 0)
    ensures MoveOrganism(w, h, d).cells == w.cells
    ensures MoveOrganism(w, h, d).organisms[h].position == w.organisms[h].position
  {
    var p := w.organisms[h].position;
    assert TargetOf(w, h) == p;
    if IsExtrovert(w.organisms[h].genome) {
      assert MoveOrganism(w, h, d) == MeetOrganism(w, h, h, d);
      SelfMeetKeepsGrid(w, h, d);
    } else {
      assert MirrorOf(w, h) == p;
    }
  }

  /** On the 80 by 40 torus, a step of (1, -1) from the corner (0, 0) lands on (1, 39). */
  lemma CornerStepScenario()
    ensures Target(Pos(0, 0), 1, -1) == Pos(1, 39)
  {
  }

  /** Move gene bits 1, 0, 1, 1 (x magnitude, x sign, y magnitude, y sign)
      decode to the step (1, -1). */
  lemma MoveGeneScenario(g: Genome, start: nat)
    requires InReach(start, MoveGeneBits)
    requires GeneAt(g, start) == 1 && GeneAt(g, start + 1) == 0
    requires GeneAt(g, start + 2) == 1 && GeneAt(g, start + 3) == 1
    ensures ParseMoveGene(g, start) == MoveGene(1, -1)
  {
  }

  /** Every organism from handle i onwards moves once, in handle order. */
  function TickFrom(w: World, draws: seq<MeetDraws>, i: nat): (w': World)
    requires Consistent(w) && AllLive(w) && |draws| == |w.organisms| && i <= |w.organisms|
    ensures Consistent(w') && AllLive(w')
    ensures |w'.organisms| == |w.organisms| && |w'.cells| == |w.cells|
    ensures LiveHandles(w') == LiveHandles(w)
    decreases |w.organisms| - i
  {
    if i == |w.organisms| then w
    else TickFrom(MoveOrganism(w, i, draws[i]), draws, i + 1)
  }

  /** One tick: every organism moves once, in handle order. */
  function Tick(w: World, draws: seq<MeetDraws>): (w': World)
    requires Consistent(w) && AllLive(w) && |draws| == |w.organisms|
    ensures Consistent(w') && AllLive(w')
    ensures |w'.organisms| == |w.organisms| && |w'.cells| == |w.cells|
  {
    TickFrom(w, draws, 0)
  }

}
