/** The `Layer` constructor and `addColumn`: columns created one after
    another with their cells and, unless spatial pooling is skipped, random
    proximal synapses to the cells of the layer's inputs. */
module LayerBuild {
  import opened Base
  import opened Arena
  import opened Construct

  /** The transmitting cells of a run of synapses, in order. */
  function TxOf(syns: seq<Synapse>): (r: seq<nat>)
    ensures |r| == |syns|
    ensures forall i :: 0 <= i < |syns| ==> r[i] == syns[i].cellTx
  {
    if syns == [] then [] else [syns[0].cellTx] + TxOf(syns[1..])
  }

  /** The cells of `b` extend those of `a`, and the cells `a` already had
      differ at most in their axon lists. */
  predicate CellsKept(a: seq<Cell>, b: seq<Cell>)
  {
    |a| <= |b| && forall i :: 0 <= i < |a| ==> b[i] == a[i].(axonSynapses := b[i].axonSynapses)
  }

  /** What connecting proximal synapses may change between `n` and `r`:
      synapses are only appended, each new one lies on `seg` with a
      permanence in `[0, min(99, connected)]`; `seg` changes only in its
      synapse list, cells only in their axon lists, nothing else at all. */
  predicate ProximalGrowth(n: Net, r: Net, seg: nat, connected: nat)
  {
    && |n.synapses| <= |r.synapses| && r.synapses[..|n.synapses|] == n.synapses
    && (forall i :: |n.synapses| <= i < |r.synapses| ==>
          && r.synapses[i].segment == seg
          && 0 <= r.synapses[i].permanence <= Min(99, connected))
    && |r.segments| == |n.segments|
    && (seg < |n.segments| ==> r.segments[seg] == n.segments[seg].(synapses := r.segments[seg].synapses))
    && (forall i :: 0 <= i < |n.segments| && i != seg ==> r.segments[i] == n.segments[i])
    && CellsKept(n.cells, r.cells) && |r.cells| == |n.cells|
    && r.columns == n.columns && r.matrices == n.matrices && r.layers == n.layers
    && r.timestep == n.timestep
  }

  lemma ProximalGrowthTrans(a: Net, b: Net, c: Net, seg: nat, connected: nat)
    requires ProximalGrowth(a, b, seg, connected) && ProximalGrowth(b, c, seg, connected)
    ensures ProximalGrowth(a, c, seg, connected)
  {
    assert c.synapses[..|a.synapses|] == c.synapses[..|b.synapses|][..|a.synapses|];
    forall i | |a.synapses| <= i < |c.synapses|
      ensures c.synapses[i].segment == seg && 0 <= c.synapses[i].permanence <= Min(99, connected)
    {
      if i < |b.synapses| {
        assert c.synapses[i] == c.synapses[..|b.synapses|][i];
      }
    }
  }

  /** One iteration of the loop over an input's cells in `addColumn`
      (layer lines 57-65): a roll `p` in `[0, 100)`; when
      `p < potentialPercent`, a permanence roll capped at
      `connectedPermanence` and a synapse from `cell` to `seg`. */
  function ConnectOne(n: Net, seg: nat, cell: nat, potential: nat, connected: nat, g: Rng): (r: (Net, Rng))
    requires seg < |n.segments|
    ensures r.0.columns == n.columns && r.0.matrices == n.matrices && r.0.layers == n.layers
    ensures |r.0.segments| == |n.segments| && |r.0.cells| == |n.cells| && r.0.timestep == n.timestep
    ensures potential == 0 ==> r.0 == n
  {
    var (p, g1) := Roll(g, 100);
    if p < potential then
      var (draw, g2) := Roll(g1, 100);
      var perm := if draw > connected then connected else draw;
      (if cell < |n.cells| then NewSynapse(n, cell, seg, perm) else n, g2)
    else (n, g1)
  }

  /** One roll adds at most one synapse, from `cell` to `seg`, with a
      permanence of at most `min(99, connectedPermanence)`. It adds one
      exactly when the potential roll is below `potentialPercent` (and the
      cell exists); the permanence is then the second roll capped at
      `connectedPermanence`. Without a synapse nothing changes. */
  lemma ConnectOneGrowth(n: Net, seg: nat, cell: nat, potential: nat, connected: nat, g: Rng)
    requires seg < |n.segments|
    ensures var r := ConnectOne(n, seg, cell, potential, connected, g).0;
      var (p, g1) := Roll(g, 100); var draw := Roll(g1, 100).0;
      && ProximalGrowth(n, r, seg, connected)
      && |r.synapses| <= |n.synapses| + 1
      && ((|r.synapses| == |n.synapses| + 1) <==> (p < potential && cell < |n.cells|))
      && (|r.synapses| == |n.synapses| + 1 ==>
            && r.synapses[|n.synapses|].cellTx == cell
            && r.synapses[|n.synapses|].permanence == (if draw > connected then connected else draw))
      && (|r.synapses| == |n.synapses| ==> r == n)
  {
  }

  /** The loop over one input's cells in `addColumn` (layer lines 56-66). */
  function ConnectCells(n: Net, seg: nat, cells: seq<nat>, potential: nat, connected: nat, g: Rng): (r: (Net, Rng))
    requires seg < |n.segments|
    ensures r.0.columns == n.columns && r.0.matrices == n.matrices && r.0.layers == n.layers
    ensures |r.0.segments| == |n.segments| && |r.0.cells| == |n.cells| && r.0.timestep == n.timestep
    ensures potential == 0 ==> r.0 == n
    decreases |cells|
  {
    if cells == [] then (n, g)
    else
      var r1 := ConnectOne(n, seg, cells[0], potential, connected, g);
      ConnectCells(r1.0, seg, cells[1..], potential, connected, r1.1)
  }

  /** The synapses the loop over one input adds lie on `seg` with
      permanences in `[0, min(99, connectedPermanence)]`, and each cell of
      the input transmits on at most one of them. */
  lemma {:induction false} ConnectCellsGrowth(n: Net, seg: nat, cells: seq<nat>, potential: nat, connected: nat, g: Rng)
    requires seg < |n.segments|
    ensures var r := ConnectCells(n, seg, cells, potential, connected, g).0;
      && ProximalGrowth(n, r, seg, connected)
      && multiset(TxOf(r.synapses[|n.synapses|..])) <= multiset(cells)
    decreases |cells|
  {
    var r := ConnectCells(n, seg, cells, potential, connected, g).0;
    if cells == [] {
      assert r.synapses[|n.synapses|..] == [];
    } else {
      var r1 := ConnectOne(n, seg, cells[0], potential, connected, g);
      ConnectOneGrowth(n, seg, cells[0], potential, connected, g);
      ConnectCellsGrowth(r1.0, seg, cells[1..], potential, connected, r1.1);
      assert r == ConnectCells(r1.0, seg, cells[1..], potential, connected, r1.1).0;
      ProximalGrowthTrans(n, r1.0, r, seg, connected);
      ConnectCellsStep(n.synapses, r1.0.synapses, r.synapses, cells);
    }
  }

  /** The multiset bookkeeping of one step of `ConnectCells`. */
  lemma ConnectCellsStep(s: seq<Synapse>, s1: seq<Synapse>, t: seq<Synapse>, cells: seq<nat>)
    requires |cells| > 0
    requires |s| <= |s1| <= |s| + 1 && s1[..|s|] == s
    requires |s1| == |s| + 1 ==> s1[|s|].cellTx == cells[0]
    requires |s1| <= |t| && t[..|s1|] == s1
    requires multiset(TxOf(t[|s1|..])) <= multiset(cells[1..])
    ensures multiset(TxOf(t[|s|..])) <= multiset(cells)
  {
    SliceSplit(s1, t, |s|);
    TxOfAppend(s1[|s|..], t[|s1|..]);
    MultisetConcat(TxOf(s1[|s|..]), TxOf(t[|s1|..]));
    MultisetConcat([cells[0]], cells[1..]);
    assert [cells[0]] + cells[1..] == cells;
    if |s1| == |s| + 1 {
      assert s1[|s|..] == [s1[|s|]];
    } else {
      assert s1[|s|..] == [];
    }
  }

  /** The cells of the given matrices, one input after another. */
  function InputCells(matrices: seq<CellMatrix>, inputs: seq<nat>): seq<nat>
  {
    if inputs == [] then []
    else (if inputs[0] < |matrices| then matrices[inputs[0]].cells else []) + InputCells(matrices, inputs[1..])
  }

  /** The loop over `proximalInputs` in `addColumn` (layer lines 54-67). */
  function ConnectInputs(n: Net, seg: nat, inputs: seq<nat>, potential: nat, connected: nat, g: Rng): (r: (Net, Rng))
    requires seg < |n.segments|
    ensures r.0.columns == n.columns && r.0.matrices == n.matrices && r.0.layers == n.layers
    ensures |r.0.segments| == |n.segments| && |r.0.cells| == |n.cells| && r.0.timestep == n.timestep
    ensures potential == 0 ==> r.0 == n
    decreases |inputs|
  {
    if inputs == [] then (n, g)
    else
      var cells := if inputs[0] < |n.matrices| then n.matrices[inputs[0]].cells else [];
      var r1 := ConnectCells(n, seg, cells, potential, connected, g);
      ConnectInputs(r1.0, seg, inputs[1..], potential, connected, r1.1)
  }

  /** The synapses `addColumn` grows over all its inputs lie on `seg` with
      permanences in `[0, min(99, connectedPermanence)]`, and each input
      cell transmits on at most one of them per occurrence among the
      inputs. */
  lemma {:induction false} ConnectInputsGrowth(n: Net, seg: nat, inputs: seq<nat>, potential: nat, connected: nat, g: Rng)
    requires seg < |n.segments|
    ensures var r := ConnectInputs(n, seg, inputs, potential, connected, g).0;
      && ProximalGrowth(n, r, seg, connected)
      && multiset(TxOf(r.synapses[|n.synapses|..])) <= multiset(InputCells(n.matrices, inputs))
    decreases |inputs|
  {
    var r := ConnectInputs(n, seg, inputs, potential, connected, g).0;
    if inputs == [] {
      assert r.synapses[|n.synapses|..] == [];
    } else {
      var cells := if inputs[0] < |n.matrices| then n.matrices[inputs[0]].cells else [];
      var r1 := ConnectCells(n, seg, cells, potential, connected, g);
      ConnectCellsGrowth(n, seg, cells, potential, connected, g);
      ConnectInputsGrowth(r1.0, seg, inputs[1..], potential, connected, r1.1);
      assert r == ConnectInputs(r1.0, seg, inputs[1..], potential, connected, r1.1).0;
      ProximalGrowthTrans(n, r1.0, r, seg, connected);
      ConnectInputsStep(n.synapses, r1.0.synapses, r.synapses, cells, InputCells(n.matrices, inputs[1..]));
    }
  }

  lemma ConnectInputsStep(s: seq<Synapse>, s1: seq<Synapse>, t: seq<Synapse>, first: seq<nat>, rest: seq<nat>)
    requires |s| <= |s1| && s1[..|s|] == s
    requires |s1| <= |t| && t[..|s1|] == s1
    requires multiset(TxOf(s1[|s|..])) <= multiset(first)
    requires multiset(TxOf(t[|s1|..])) <= multiset(rest)
    ensures multiset(TxOf(t[|s|..])) <= multiset(first + rest)
  {
    SliceSplit(s1, t, |s|);
    TxOfAppend(s1[|s|..], t[|s1|..]);
    MultisetConcat(TxOf(s1[|s|..]), TxOf(t[|s1|..]));
    MultisetConcat(first, rest);
  }

  lemma TxOfAppend(a: seq<Synapse>, b: seq<Synapse>)
    ensures TxOf(a + b) == TxOf(a) + TxOf(b)
  {
    if a != [] {
      assert (a + b)[1..] == a[1..] + b;
      TxOfAppend(a[1..], b);
    }
  }

  lemma ConnectOneWellFormed(n: Net, seg: nat, cell: nat, potential: nat, connected: nat, g: Rng)
    requires WellFormed(n) && seg < |n.segments|
    ensures WellFormed(ConnectOne(n, seg, cell, potential, connected, g).0)
  {
    var (p, g1) := Roll(g, 100);
    if p < potential {
      var (draw, g2) := Roll(g1, 100);
      var perm := if draw > connected then connected else draw;
      if cell < |n.cells| {
        NewSynapseWellFormed(n, cell, seg, perm);
      }
    }
  }

  lemma {:induction false} ConnectCellsWellFormed(n: Net, seg: nat, cells: seq<nat>, potential: nat, connected: nat, g: Rng)
    requires WellFormed(n) && seg < |n.segments|
    ensures WellFormed(ConnectCells(n, seg, cells, potential, connected, g).0)
    decreases |cells|
  {
    if cells != [] {
      var r1 := ConnectOne(n, seg, cells[0], potential, connected, g);
      ConnectOneWellFormed(n, seg, cells[0], potential, connected, g);
      ConnectCellsWellFormed(r1.0, seg, cells[1..], potential, connected, r1.1);
    }
  }

  lemma {:induction false} ConnectInputsWellFormed(n: Net, seg: nat, inputs: seq<nat>, potential: nat, connected: nat, g: Rng)
    requires WellFormed(n) && seg < |n.segments|
    ensures WellFormed(ConnectInputs(n, seg, inputs, potential, connected, g).0)
    decreases |inputs|
  {
    if inputs != [] {
      var cells := if inputs[0] < |n.matrices| then n.matrices[inputs[0]].cells else [];
      ConnectCellsWellFormed(n, seg, cells, potential, connected, g);
      var r1 := ConnectCells(n, seg, cells, potential, connected, g);
      ConnectInputsWellFormed(r1.0, seg, inputs[1..], potential, connected, r1.1);
    }
  }

  /** Column `id` is the `k`-th column of a layer with `cpc` cells per
      column over matrix `m`: index `k`, and its `j`-th cell has global
      index `k * cpc + j`, coordinates `(k, j)` and belongs to it. */
  predicate ColumnAt(n: Net, id: nat, k: nat, cpc: nat, m: nat)
    requires id < |n.columns|
  {
    var c := n.columns[id];
    && c.index == k && |c.cells| == cpc
    && forall j :: 0 <= j < |c.cells| ==>
         && c.cells[j] < |n.cells|
         && n.cells[c.cells[j]].index == k * cpc + j
         && n.cells[c.cells[j]].x == k && n.cells[c.cells[j]].y == j
         && n.cells[c.cells[j]].column == Some(id) && n.cells[c.cells[j]].matrix == m
  }

  /** The layout `addColumn` gives a layer: its `k`-th column is laid out
      as `ColumnAt` says. */
  predicate ColumnLayout(n: Net, l: nat)
    requires l < |n.layers|
  {
    var L := n.layers[l];
    forall k :: 0 <= k < |L.columns| ==>
      L.columns[k] < |n.columns| && ColumnAt(n, L.columns[k], k, L.params.cellsPerColumn, L.cellMatrix)
  }

  lemma ColumnAtKept(n: Net, r: Net, id: nat, k: nat, cpc: nat, m: nat)
    requires id < |n.columns| <= |r.columns| && r.columns[id] == n.columns[id]
    requires CellsKept(n.cells, r.cells)
    requires ColumnAt(n, id, k, cpc, m)
    ensures ColumnAt(r, id, k, cpc, m)
  {
    var c := n.columns[id];
    forall j | 0 <= j < |c.cells|
      ensures r.cells[c.cells[j]] == n.cells[c.cells[j]].(axonSynapses := r.cells[c.cells[j]].axonSynapses)
    {
    }
  }

  /** `layer.addColumn()` (layer lines 48-72): a column with index
      `columns.length`, cells from `columns.length * cellsPerColumn` on,
      proximal synapses to the input cells unless spatial pooling is
      skipped, then the column is pushed on the layer. What the column and
      the synapses look like is stated by `AddColumnShape` and
      `AddColumnSynapses`. */
  function AddColumn(n: Net, l: nat, g: Rng): (r: (Net, Rng))
    requires l < |n.layers| && n.layers[l].cellMatrix < |n.matrices|
    ensures |r.0.columns| == |n.columns| + 1
    ensures |r.0.layers| == |n.layers| && |r.0.matrices| == |n.matrices|
    ensures r.0.layers[l] == n.layers[l].(columns := n.layers[l].columns + [|n.columns|])
    ensures forall i :: 0 <= i < |n.layers| && i != l ==> r.0.layers[i] == n.layers[i]
  {
    var L := n.layers[l];
    var cpc := L.params.cellsPerColumn;
    var n1 := NewColumn(n, |L.columns|, |L.columns| * cpc, cpc, l);
    var (n2, g2) :=
      if !L.params.skipSpatialPooling then
        ConnectInputs(n1, |n.segments|, L.proximalInputs, L.params.potentialPercent, L.params.connectedPermanence, g)
      else (n1, g);
    (SetLayer(n2, l, L.(columns := L.columns + [|n.columns|])), g2)
  }

  /** The column `addColumn` creates: its index is the layer's column
      count, its cells are the next `cellsPerColumn` handles, laid out with
      global indexes from `index * cellsPerColumn` on, and its proximal
      segment has no receiving cell. */
  lemma AddColumnShape(n: Net, l: nat, g: Rng)
    requires l < |n.layers| && n.layers[l].cellMatrix < |n.matrices|
    ensures var r := AddColumn(n, l, g).0; var L := n.layers[l];
      && r.columns[..|n.columns|] == n.columns
      && r.columns[|n.columns|].index == |L.columns| && r.columns[|n.columns|].layer == l
      && r.columns[|n.columns|].proximalSegment == |n.segments|
      && r.columns[|n.columns|].cells == Ids(|n.cells|, L.params.cellsPerColumn)
      && |r.segments| == |n.segments| + 1 && r.segments[..|n.segments|] == n.segments
      && r.segments[|n.segments|].kind == Proximal && r.segments[|n.segments|].cellRx.None?
      && r.segments[|n.segments|].column == Some(|n.columns|)
      && |r.cells| == |n.cells| + L.params.cellsPerColumn && CellsKept(n.cells, r.cells)
      && forall i :: |n.cells| <= i < |r.cells| ==>
           && r.cells[i].index == |L.columns| * L.params.cellsPerColumn + (i - |n.cells|)
           && r.cells[i].x == |L.columns| && r.cells[i].y == i - |n.cells|
           && r.cells[i].column == Some(|n.columns|) && r.cells[i].matrix == L.cellMatrix
  {
    var L := n.layers[l];
    var cpc := L.params.cellsPerColumn;
    var n1, n2 := AddColumnStages(n, l, g);
    NewColumnFacts(n, |L.columns|, |L.columns| * cpc, cpc, l);
    SegmentsKeptPrefix(n.segments, n1.segments, n2.segments, |n.segments|);
    CellsKeptPrefix(n.cells, n1.cells, n2.cells);
    FreshRunKept(n1.cells, n2.cells, |n.cells|, L.cellMatrix, |L.columns| * cpc, |L.columns|, |n.columns|);
  }

  /** `addColumn` as its two stages: the `Column` constructor, then the
      proximal synapses, which grow only the new segment and axon lists. */
  lemma AddColumnStages(n: Net, l: nat, g: Rng) returns (n1: Net, n2: Net)
    requires l < |n.layers| && n.layers[l].cellMatrix < |n.matrices|
    ensures var L := n.layers[l]; var cpc := L.params.cellsPerColumn;
      n1 == NewColumn(n, |L.columns|, |L.columns| * cpc, cpc, l)
    ensures ProximalGrowth(n1, n2, |n.segments|, n.layers[l].params.connectedPermanence)
    ensures var r := AddColumn(n, l, g).0;
      r.cells == n2.cells && r.segments == n2.segments && r.columns == n2.columns
  {
    var L := n.layers[l];
    var cpc := L.params.cellsPerColumn;
    n1 := NewColumn(n, |L.columns|, |L.columns| * cpc, cpc, l);
    n2 := n1;
    if !L.params.skipSpatialPooling {
      ConnectInputsGrowth(n1, |n.segments|, L.proximalInputs, L.params.potentialPercent, L.params.connectedPermanence, g);
      n2 := ConnectInputs(n1, |n.segments|, L.proximalInputs, L.params.potentialPercent, L.params.connectedPermanence, g).0;
    } else {
      assert n1.synapses[..|n1.synapses|] == n1.synapses;
    }
  }

  /** Segments that only `seg` may change keep any prefix below `seg`. */
  lemma SegmentsKeptPrefix(a: seq<Segment>, b: seq<Segment>, c: seq<Segment>, seg: nat)
    requires |a| <= seg && |a| <= |b| && b[..|a|] == a && |c| == |b|
    requires forall i :: 0 <= i < |b| && i != seg ==> c[i] == b[i]
    ensures c[..|a|] == a
  {
    forall i | 0 <= i < |a| ensures c[i] == a[i] {
      assert b[..|a|][i] == b[i];
    }
  }

  /** Axon growth after appending cells keeps the original cells but for
      their axon lists. */
  lemma CellsKeptPrefix(a: seq<Cell>, b: seq<Cell>, c: seq<Cell>)
    requires |a| <= |b| && b[..|a|] == a && CellsKept(b, c)
    ensures CellsKept(a, c)
  {
    forall i | 0 <= i < |a| ensures c[i] == a[i].(axonSynapses := c[i].axonSynapses) {
      assert b[..|a|][i] == b[i];
    }
  }

  /** Axon growth keeps the layout of a run of fresh cells. */
  lemma FreshRunKept(b: seq<Cell>, c: seq<Cell>, from: nat, matrix: nat, firstIndex: nat, x: nat, col: nat)
    requires FreshRun(b, from, matrix, firstIndex, x, 0, col) && CellsKept(b, c) && |c| == |b|
    ensures forall i :: from <= i < |c| ==>
      && c[i].index == firstIndex + (i - from) && c[i].x == x && c[i].y == i - from
      && c[i].column == Some(col) && c[i].matrix == matrix
  {
    forall i | from <= i < |c|
      ensures c[i].index == firstIndex + (i - from) && c[i].x == x && c[i].y == i - from
      ensures c[i].column == Some(col) && c[i].matrix == matrix
    {
      assert c[i] == b[i].(axonSynapses := c[i].axonSynapses);
    }
  }

  /** The synapses `addColumn` creates: all on the new proximal segment,
      with permanences in `[0, min(99, connectedPermanence)]`, at most one
      per input cell, and none when spatial pooling is skipped or
      `potentialPercent` is 0. */
  lemma AddColumnSynapses(n: Net, l: nat, g: Rng)
    requires l < |n.layers| && n.layers[l].cellMatrix < |n.matrices|
    ensures var r := AddColumn(n, l, g).0; var L := n.layers[l];
      && |n.synapses| <= |r.synapses| && r.synapses[..|n.synapses|] == n.synapses
      && (forall i :: |n.synapses| <= i < |r.synapses| ==>
            && r.synapses[i].segment == |n.segments|
            && 0 <= r.synapses[i].permanence <= Min(99, L.params.connectedPermanence))
      && multiset(TxOf(r.synapses[|n.synapses|..])) <= multiset(InputCells(r.matrices, L.proximalInputs))
      && (L.params.skipSpatialPooling || L.params.potentialPercent == 0 ==> r.synapses == n.synapses)
  {
    var L := n.layers[l];
    var cpc := L.params.cellsPerColumn;
    var n1 := NewColumn(n, |L.columns|, |L.columns| * cpc, cpc, l);
    var r := AddColumn(n, l, g).0;
    if !L.params.skipSpatialPooling {
      ConnectInputsGrowth(n1, |n.segments|, L.proximalInputs, L.params.potentialPercent, L.params.connectedPermanence, g);
      var n2 := ConnectInputs(n1, |n.segments|, L.proximalInputs, L.params.potentialPercent, L.params.connectedPermanence, g).0;
      assert r.synapses == n2.synapses && r.matrices == n2.matrices;
    } else {
      assert r.synapses == n1.synapses;
    }
  }

  lemma SetLayerWellFormed(n: Net, l: nat, L: Layer)
    requires WellFormed(n) && l < |n.layers| && LayerOk(L, SizesOf(n))
    ensures WellFormed(SetLayer(n, l, L))
  {
    var r := SetLayer(n, l, L);
    assert SizesOf(r) == SizesOf(n);
    forall i | 0 <= i < |r.layers| ensures LayerOk(r.layers[i], SizesOf(r)) {
      if i != l { assert r.layers[i] == n.layers[i]; }
    }
  }

  lemma AddColumnWellFormed(n: Net, l: nat, g: Rng)
    requires WellFormed(n) && l < |n.layers| && n.layers[l].cellMatrix < |n.matrices|
    ensures WellFormed(AddColumn(n, l, g).0)
  {
    var L := n.layers[l];
    var cpc := L.params.cellsPerColumn;
    NewColumnWellFormed(n, |L.columns|, |L.columns| * cpc, cpc, l);
    var n1 := NewColumn(n, |L.columns|, |L.columns| * cpc, cpc, l);
    assert n1.synapses == n.synapses;
    var n2 := n1;
    if !L.params.skipSpatialPooling {
      ConnectInputsWellFormed(n1, |n.segments|, L.proximalInputs, L.params.potentialPercent, L.params.connectedPermanence, g);
      n2 := ConnectInputs(n1, |n.segments|, L.proximalInputs, L.params.potentialPercent, L.params.connectedPermanence, g).0;
    }
    assert n2.layers == n.layers && |n2.columns| == |n.columns| + 1;
    var L' := L.(columns := L.columns + [|n.columns|]);
    assert LayerOk(L, SizesOf(n2));
    assert LayerOk(L', SizesOf(n2));
    SetLayerWellFormed(n2, l, L');
    assert AddColumn(n, l, g).0 == SetLayer(n2, l, L');
  }

  /** Synapses that only grow in range keep every permanence in range. */
  lemma GrowthKeepsPermanences(n: Net, r: Net, bound: int)
    requires PermanencesInRange(n) && bound <= 100
    requires |n.synapses| <= |r.synapses| && r.synapses[..|n.synapses|] == n.synapses
    requires forall i :: |n.synapses| <= i < |r.synapses| ==> 0 <= r.synapses[i].permanence <= bound
    ensures PermanencesInRange(r)
  {
    forall i | 0 <= i < |n.synapses| ensures r.synapses[i] == n.synapses[i] {
      assert r.synapses[..|n.synapses|][i] == r.synapses[i];
    }
  }

  lemma AddColumnLayout(n: Net, l: nat, g: Rng)
    requires l < |n.layers| && n.layers[l].cellMatrix < |n.matrices|
    requires ColumnLayout(n, l)
    ensures ColumnLayout(AddColumn(n, l, g).0, l)
  {
    var r := AddColumn(n, l, g).0;
    AddColumnShape(n, l, g);
    var L := n.layers[l];
    var cpc := L.params.cellsPerColumn;
    var L' := r.layers[l];
    forall k | 0 <= k < |L'.columns|
      ensures L'.columns[k] < |r.columns| && ColumnAt(r, L'.columns[k], k, cpc, L.cellMatrix)
    {
      if k < |L.columns| {
        assert L'.columns[k] == L.columns[k];
        assert r.columns[L.columns[k]] == n.columns[L.columns[k]] by {
          assert r.columns[..|n.columns|][L.columns[k]] == r.columns[L.columns[k]];
        }
        ColumnAtKept(n, r, L.columns[k], k, cpc, L.cellMatrix);
      } else {
        assert L'.columns[k] == |n.columns|;
        var c := r.columns[|n.columns|];
        forall j | 0 <= j < |c.cells|
          ensures c.cells[j] == |n.cells| + j
        {
        }
      }
    }
  }

  /** The constructor's `for (c = 0; c < columnCount; c++) addColumn()`
      (layer lines 75-79), `count` columns at a time. */
  function AddColumns(n: Net, l: nat, count: nat, g: Rng): (r: (Net, Rng))
    requires l < |n.layers| && n.layers[l].cellMatrix < |n.matrices|
    ensures |r.0.layers| == |n.layers| && |r.0.matrices| == |n.matrices|
    ensures |r.0.columns| == |n.columns| + count
    decreases count
  {
    if count == 0 then (n, g)
    else
      var r1 := AddColumn(n, l, g);
      AddColumns(r1.0, l, count - 1, r1.1)
  }

  /** The loop appends the new column handles, in order, to layer `l` and
      to no other layer. */
  lemma AddColumnsLayers(n: Net, l: nat, count: nat, g: Rng)
    requires l < |n.layers| && n.layers[l].cellMatrix < |n.matrices|
    ensures var r := AddColumns(n, l, count, g).0;
      && r.layers[l].columns == n.layers[l].columns + Ids(|n.columns|, count)
      && r.layers[l] == n.layers[l].(columns := r.layers[l].columns)
      && forall i :: 0 <= i < |n.layers| && i != l ==> r.layers[i] == n.layers[i]
  {
    AddColumnsIds(n, l, count, g);
    AddColumnsShape(n, l, count, g);
  }

  lemma {:induction false} AddColumnsIds(n: Net, l: nat, count: nat, g: Rng)
    requires l < |n.layers| && n.layers[l].cellMatrix < |n.matrices|
    ensures AddColumns(n, l, count, g).0.layers[l].columns == n.layers[l].columns + Ids(|n.columns|, count)
    decreases count
  {
    if count > 0 {
      var r1 := AddColumn(n, l, g);
      AddColumnsIds(r1.0, l, count - 1, r1.1);
      IdsCons(|n.columns|, count - 1);
      SeqAssoc(n.layers[l].columns, [|n.columns|], Ids(|n.columns| + 1, count - 1));
    }
  }

  lemma {:induction false} AddColumnsShape(n: Net, l: nat, count: nat, g: Rng)
    requires l < |n.layers| && n.layers[l].cellMatrix < |n.matrices|
    ensures var r := AddColumns(n, l, count, g).0;
      && r.layers[l] == n.layers[l].(columns := r.layers[l].columns)
      && forall i :: 0 <= i < |n.layers| && i != l ==> r.layers[i] == n.layers[i]
    decreases count
  {
    if count > 0 {
      var r1 := AddColumn(n, l, g);
      AddColumnsShape(r1.0, l, count - 1, r1.1);
    }
  }

  lemma {:induction false} AddColumnsWellFormed(n: Net, l: nat, count: nat, g: Rng)
    requires WellFormed(n) && l < |n.layers| && n.layers[l].cellMatrix < |n.matrices|
    ensures WellFormed(AddColumns(n, l, count, g).0)
    decreases count
  {
    if count > 0 {
      var r1 := AddColumn(n, l, g);
      AddColumnWellFormed(n, l, g);
      AddColumnsWellFormed(r1.0, l, count - 1, r1.1);
    }
  }

  /** Every column `addColumn` adds keeps the layer laid out column by
      column. */
  lemma {:induction false} AddColumnsLayout(n: Net, l: nat, count: nat, g: Rng)
    requires l < |n.layers| && n.layers[l].cellMatrix < |n.matrices|
    requires ColumnLayout(n, l)
    ensures ColumnLayout(AddColumns(n, l, count, g).0, l)
    decreases count
  {
    if count > 0 {
      var r1 := AddColumn(n, l, g);
      AddColumnLayout(n, l, g);
      AddColumnsLayout(r1.0, l, count - 1, r1.1);
    }
  }

  /** Building columns keeps every permanence within `[0, 100]`. */
  lemma {:induction false} AddColumnsPermanences(n: Net, l: nat, count: nat, g: Rng)
    requires l < |n.layers| && n.layers[l].cellMatrix < |n.matrices|
    requires PermanencesInRange(n)
    ensures PermanencesInRange(AddColumns(n, l, count, g).0)
    decreases count
  {
    if count > 0 {
      var r1 := AddColumn(n, l, g);
      AddColumnSynapses(n, l, g);
      GrowthKeepsPermanences(n, r1.0, 99);
      AddColumnsPermanences(r1.0, l, count - 1, r1.1);
    }
  }

  /** `new Layer(params, layerType, proximalInputs, distalInput, apicalInput)`
      (layer lines 20-79); the new handle is `|n.layers|` and its cell
      matrix is `|n.matrices|`. Omitted arguments are `None`. */
  function NewLayer(n: Net, params: Params, kind: Option<LayerType>, proximalInputs: Option<seq<nat>>,
                    distalInput: Option<nat>, apicalInput: Option<nat>, g: Rng): (r: (Net, Rng))
    ensures |r.0.layers| == |n.layers| + 1 && r.0.layers[..|n.layers|] == n.layers
    ensures var L := r.0.layers[|n.layers|];
      && L.params == params
      && L.kind == (if kind.Some? then kind.value else TmLayer)
      && L.proximalInputs == (if proximalInputs.Some? then proximalInputs.value else [])
      && L.distalInput == distalInput && L.apicalInput == apicalInput
      && L.cellMatrix == |n.matrices| && L.timestep == 0 && L.activeColumns == []
      && L.columns == (if params.skipSpatialPooling then [] else Ids(|n.columns|, params.columnCount))
    ensures |r.0.matrices| == |n.matrices| + 1
    ensures params.skipSpatialPooling ==> r.0.synapses == n.synapses && r.0.columns == n.columns
    ensures params.skipSpatialPooling ==> r.0.cells == n.cells && r.0.segments == n.segments
  {
    var m := |n.matrices|;
    var n1 := NewCellMatrix(n, params, None);
    var L := Layer(params, match kind case Some(k) => k case None => TmLayer, [], [],
                   match proximalInputs case Some(p) => p case None => [],
                   distalInput, apicalInput, m, 0);
    var n2 := n1.(layers := n1.layers + [L]);
    if !params.skipSpatialPooling then
      var r := AddColumns(n2, |n.layers|, params.columnCount, g);
      AddColumnsLayers(n2, |n.layers|, params.columnCount, g);
      assert r.0.layers[..|n.layers|] == n.layers;
      r
    else (n2, g)
  }

  /** A layer built over existing inputs keeps the net well formed and its
      permanences in range, and it is laid out column by column. */
  lemma NewLayerInvariants(n: Net, params: Params, kind: Option<LayerType>, proximalInputs: Option<seq<nat>>,
                           distalInput: Option<nat>, apicalInput: Option<nat>, g: Rng)
    requires WellFormed(n)
    requires proximalInputs.Some? ==> IdsBelow(proximalInputs.value, |n.matrices|)
    requires OptBelow(distalInput, |n.matrices|) && OptBelow(apicalInput, |n.matrices|)
    ensures var r := NewLayer(n, params, kind, proximalInputs, distalInput, apicalInput, g).0;
      && WellFormed(r) && ColumnLayout(r, |n.layers|)
      && (PermanencesInRange(n) ==> PermanencesInRange(r))
  {
    var n1 := NewCellMatrix(n, params, None);
    NewCellMatrixWellFormed(n, params);
    var L := Layer(params, match kind case Some(k) => k case None => TmLayer, [], [],
                   match proximalInputs case Some(p) => p case None => [],
                   distalInput, apicalInput, |n.matrices|, 0);
    var n2 := n1.(layers := n1.layers + [L]);
    var z, z' := SizesOf(n1), SizesOf(n2);
    OkGrows(z, z');
    assert LayerOk(L, z');
    forall i | 0 <= i < |n2.layers| ensures LayerOk(n2.layers[i], z') {
      if i < |n1.layers| { assert LayerOk(n1.layers[i], z); }
    }
    assert WellFormed(n2);
    assert ColumnLayout(n2, |n.layers|);
    if !params.skipSpatialPooling {
      AddColumnsWellFormed(n2, |n.layers|, params.columnCount, g);
      AddColumnsLayout(n2, |n.layers|, params.columnCount, g);
      if PermanencesInRange(n) {
        AddColumnsPermanences(n2, |n.layers|, params.columnCount, g);
      }
    }
  }
}
