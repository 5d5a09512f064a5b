/** The toroidal world grid and the organisms living on it. Organisms sit in
    an arena and are named by handles; the grid maps each occupied cell to the
    handle of its occupant, and a cell missing from the map is empty, so no
    two organisms can share a cell. */
module Grid {
  import opened Wrappers
  import opened Genome
  import opened Draws

  const WorldWidth: nat := 80
  const WorldHeight: nat := 40
  /** Glyph variants per colour. */
  const FaceCount: nat := 6

  type Face = f: nat | f < FaceCount

  type Handle = nat

  datatype Pos = Pos(x: int, y: int)

  datatype Organism = Organism(genome: Genome, position: Pos, face: Face)

  datatype World = World(cells: map<Pos, Handle>, organisms: seq<Organism>)

  predicate InBounds(p: Pos) {
    0 <= p.x < WorldWidth && 0 <= p.y < WorldHeight
  }

  /** The grid invariant: every occupied cell is in bounds and holds an
      organism whose position field names that very cell. */
  predicate Consistent(w: World) {
    forall p :: p in w.cells ==>
      InBounds(p) && w.cells[p] < |w.organisms| && w.organisms[w.cells[p]].position == p
  }

  /** Organism h is on the grid, in the cell its position field names. */
  predicate Live(w: World, h: Handle) {
    h < |w.organisms| && w.organisms[h].position in w.cells && w.cells[w.organisms[h].position] == h
  }

  function LiveHandles(w: World): set<Handle> {
    set h | 0 <= h < |w.organisms| && Live(w, h)
  }

  predicate AllLive(w: World) {
    forall h :: 0 <= h < |w.organisms| ==> Live(w, h)
  }

  /** Every live organism keeps living, and no other organism starts to. */
  ghost predicate SameLive(w: World, w': World) {
    forall h :: Live(w, h) <==> Live(w', h)
  }

  /** In a consistent world an organism occupies at most one cell. */
  lemma OneCellPerOrganism(w: World, p: Pos, q: Pos)
    requires Consistent(w) && p in w.cells && q in w.cells && w.cells[p] == w.cells[q]
    ensures p == q
  {
  }

  lemma {:induction false} InjectiveMapCard(m: map<Pos, Handle>)
    requires forall p, q :: p in m && q in m && m[p] == m[q] ==> p == q
    ensures |m.Values| == |m.Keys|
    decreases |m.Keys|
  {
    if m.Keys != {} {
      var p :| p in m.Keys;
      var rest := m - {p};
      InjectiveMapCard(rest);
      assert m.Keys == rest.Keys + {p};
      forall v | v in m.Values
        ensures v in rest.Values + {m[p]}
      {
        var q :| q in m && m[q] == v;
        if q != p {
          assert rest[q] == v;
        }
      }
      forall v | v in rest.Values
        ensures v in m.Values
      {
        var q :| q in rest && rest[q] == v;
        assert m[q] == v;
      }
      assert m[p] !in rest.Values by {
        forall q | q in rest
          ensures rest[q] != m[p]
        {
        }
      }
      assert m.Values == rest.Values + {m[p]};
    }
  }

  /** The number of occupied cells equals the number of live organisms. */
  lemma OccupiedCellsCountLive(w: World)
    requires Consistent(w)
    ensures |w.cells| == |LiveHandles(w)|
  {
    assert w.cells.Values == LiveHandles(w);
    InjectiveMapCard(w.cells);
  }

  /** A grid with every cell empty and no organisms yet. */
  function CreateWorld(): (w: World)
    ensures Consistent(w)
    ensures forall p :: InBounds(p) ==> p !in w.cells
    ensures LiveHandles(w) == {}
  {
    World(map[], [])
  }

  /** The cell one pair of raw draws picks, uniformly over the grid. */
  function SamplePos(sample: (nat, nat)): (p: Pos)
    ensures InBounds(p)
  {
    Pos(RandomBelow(sample.0, WorldWidth), RandomBelow(sample.1, WorldHeight))
  }

  /** How many samples the rejection loop draws before it hits an empty cell;
      |samples| when every sample lands on an occupied one. */
  function FirstEmptySample(w: World, samples: seq<(nat, nat)>): (i: nat)
    ensures i <= |samples|
    ensures forall j :: 0 <= j < i ==> SamplePos(samples[j]) in w.cells
    ensures i < |samples| ==> SamplePos(samples[i]) !in w.cells
    decreases |samples|
  {
    if |samples| == 0 || SamplePos(samples[0]) !in w.cells then 0
    else 1 + FirstEmptySample(w, samples[1..])
  }

  /** The rejection-sampling search for an empty cell, bounded by the samples
      supplied: None when the budget runs out. */
  function FindEmptyPosition(w: World, samples: seq<(nat, nat)>): (r: Option<Pos>)
    ensures r.Some? ==> InBounds(r.value) && r.value !in w.cells
    ensures r.Some? ==> exists j :: 0 <= j < |samples| && SamplePos(samples[j]) == r.value
    ensures r.None? <==> forall j :: 0 <= j < |samples| ==> SamplePos(samples[j]) in w.cells
  {
    var i := FirstEmptySample(w, samples);
    if i < |samples| then Some(SamplePos(samples[i])) else None
  }

  function RandomGenome(bitDraws: seq<nat>): (g: Genome)
    requires |bitDraws| == GenomeLength
  {
    seq(GenomeLength, k requires 0 <= k < GenomeLength => RandomBelow(bitDraws[k], 2))
  }

  /** Adds an organism with a genome of drawn bits and a drawn face on an
      empty cell found by FindEmptyPosition; its handle is the old arena size.
      None when no sample finds an empty cell. */
  function CreateOrganism(w: World, bitDraws: seq<nat>, faceDraw: nat, samples: seq<(nat, nat)>): (r: Option<World>)
    requires Consistent(w)
    requires |bitDraws| == GenomeLength
    ensures r.None? <==> forall j :: 0 <= j < |samples| ==> SamplePos(samples[j]) in w.cells
    ensures r.Some? ==> Consistent(r.value)
    ensures r.Some? ==> |r.value.organisms| == |w.organisms| + 1 && Live(r.value, |w.organisms|)
    ensures r.Some? ==> r.value.organisms[..|w.organisms|] == w.organisms
    ensures r.Some? ==> r.value.organisms[|w.organisms|].position !in w.cells
    ensures r.Some? ==> forall k :: 0 <= k < GenomeLength ==> r.value.organisms[|w.organisms|].genome[k] == bitDraws[k] % 2
    ensures r.Some? ==> |r.value.cells| == |w.cells| + 1
  {
    match FindEmptyPosition(w, samples)
    case None => None
    case Some(p) =>
      var h := |w.organisms|;
      var o := Organism(RandomGenome(bitDraws), p, RandomBelow(faceDraw, FaceCount));
      Some(World(w.cells[p := h], w.organisms + [o]))
  }

  /** Creating an organism adds exactly its handle to the live organisms. */
  lemma CreateOrganismAddsLive(w: World, bitDraws: seq<nat>, faceDraw: nat, samples: seq<(nat, nat)>)
    requires Consistent(w) && |bitDraws| == GenomeLength
    ensures var r := CreateOrganism(w, bitDraws, faceDraw, samples);
            r.Some? ==> LiveHandles(r.value) == LiveHandles(w) + {|w.organisms|}
  {
    var r := CreateOrganism(w, bitDraws, faceDraw, samples);
    if r.Some? {
      var w' := r.value;
      var n := |w.organisms|;
      forall h | 0 <= h < n
        ensures Live(w', h) <==> Live(w, h)
      {
        assert w'.organisms[h] == w.organisms[h];
      }
    }
  }

  /** Empties the organism's cell; the organism record stays in the arena. */
  function DestroyOrganism(w: World, h: Handle): (w': World)
    requires Consistent(w) && h < |w.organisms|
    ensures Consistent(w')
    ensures w'.organisms == w.organisms
    ensures w.organisms[h].position !in w'.cells
    ensures w'.cells.Keys == w.cells.Keys - {w.organisms[h].position}
    ensures !Live(w', h)
    ensures forall h' :: Live(w', h') ==> Live(w, h')
    ensures Live(w, h) ==> forall h' :: h' != h ==> (Live(w', h') <==> Live(w, h'))
    ensures Live(w, h) ==> |w'.cells| == |w.cells| - 1
    ensures forall p :: p in w.cells && p != w.organisms[h].position ==> p in w'.cells && w'.cells[p] == w.cells[p]
  {
    World(w.cells - {w.organisms[h].position}, w.organisms)
  }

  /** Moves organism h into the empty cell to: a vacate and a place done together. */
  function Relocate(w: World, h: Handle, to: Pos): (w': World)
    requires Consistent(w) && Live(w, h) && InBounds(to) && to !in w.cells
    ensures Consistent(w') && SameLive(w, w')
    ensures w'.organisms[h].position == to && w'.cells[to] == h
    ensures w.organisms[h].position !in w'.cells
    ensures forall p :: p != to && p != w.organisms[h].position ==>
              (p in w'.cells <==> p in w.cells) && (p in w.cells ==> w'.cells[p] == w.cells[p])
    ensures |w'.cells| == |w.cells|
    ensures |w'.organisms| == |w.organisms|
    ensures forall k :: 0 <= k < |w.organisms| && k != h ==> w'.organisms[k] == w.organisms[k]
    ensures w'.organisms[h].genome == w.organisms[h].genome
  {
    var from := w.organisms[h].position;
    World((w.cells - {from})[to := h], w.organisms[h := w.organisms[h].(position := to)])
  }

  /** Gives organism h a new genome; the grid and every position stay as they were. */
  function WithGenome(w: World, h: Handle, g: Genome): (w': World)
    requires Consistent(w) && h < |w.organisms|
    ensures Consistent(w') && SameLive(w, w') && w'.cells == w.cells
    ensures |w'.organisms| == |w.organisms| && w'.organisms[h].genome == g
    ensures forall k :: 0 <= k < |w.organisms| ==>
              w'.organisms[k].position == w.organisms[k].position && w'.organisms[k].face == w.organisms[k].face
    ensures forall k :: 0 <= k < |w.organisms| && k != h ==> w'.organisms[k] == w.organisms[k]
  {
    w.(organisms := w.organisms[h := w.organisms[h].(genome := g)])
  }

  /** Exchanges the cells of organisms a and b: both cells and both position
      fields change together. */
  function Swap(w: World, a: Handle, b: Handle): (w': World)
    requires Consistent(w) && Live(w, a) && Live(w, b)
    ensures Consistent(w') && SameLive(w, w')
    ensures w'.cells.Keys == w.cells.Keys && |w'.organisms| == |w.organisms|
    ensures w'.organisms[a].position == w.organisms[b].position
    ensures w'.organisms[b].position == w.organisms[a].position
  {
    var pa := w.organisms[a].position;
    var pb := w.organisms[b].position;
    var cells := w.cells[pb := a][pa := b];
    var organisms := w.organisms[a := w.organisms[a].(position := pb)][b := w.organisms[b].(position := pa)];
    World(cells, organisms)
  }

  /** A swap touches nothing but the two cells and the two position fields. */
  lemma SwapKeepsRest(w: World, a: Handle, b: Handle)
    requires Consistent(w) && Live(w, a) && Live(w, b)
    ensures var w' := Swap(w, a, b);
            && w'.cells[w.organisms[a].position] == b
            && w'.cells[w.organisms[b].position] == a
            && (forall p :: p in w.cells && p != w.organisms[a].position && p != w.organisms[b].position ==>
                  w'.cells[p] == w.cells[p])
            && (forall k :: 0 <= k < |w.organisms| ==>
                  w'.organisms[k].genome == w.organisms[k].genome && w'.organisms[k].face == w.organisms[k].face)
            && (forall k :: 0 <= k < |w.organisms| && k != a && k != b ==> w'.organisms[k] == w.organisms[k])
  {
  }

}
