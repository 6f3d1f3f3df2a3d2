/** The constructors of the prototype files: each appends a new entity to
    its store in the arena and registers it where the source's constructor
    pushes it (segment and axon lists, a cell's segment list by kind, a
    matrix's cell list, a layer's column list). */
module Construct {
  import opened Base
  import opened Arena
  import opened Sampling

  /** `new Synapse(cellTx, segment, permanence)`; the new handle is
      `|n.synapses|`. */
  function NewSynapse(n: Net, cellTx: nat, seg: nat, permanence: int): (r: Net)
    requires cellTx < |n.cells| && seg < |n.segments|
    ensures |r.synapses| == |n.synapses| + 1 && r.synapses[..|n.synapses|] == n.synapses
    ensures r.synapses[|n.synapses|] == Synapse(cellTx, seg, permanence)
    ensures |r.segments| == |n.segments|
    ensures r.segments[seg].synapses == n.segments[seg].synapses + [|n.synapses|]
    ensures forall i :: 0 <= i < |n.segments| ==>
      r.segments[i] == n.segments[i].(synapses := r.segments[i].synapses)
    ensures forall i :: 0 <= i < |n.segments| && i != seg ==> r.segments[i] == n.segments[i]
    ensures |r.cells| == |n.cells|
    ensures r.cells[cellTx].axonSynapses == n.cells[cellTx].axonSynapses + [|n.synapses|]
    ensures forall i :: 0 <= i < |n.cells| ==>
      r.cells[i] == n.cells[i].(axonSynapses := r.cells[i].axonSynapses)
    ensures forall i :: 0 <= i < |n.cells| && i != cellTx ==> r.cells[i] == n.cells[i]
    ensures r.columns == n.columns && r.matrices == n.matrices && r.layers == n.layers
    ensures r.timestep == n.timestep
  {
    var id := |n.synapses|;
    var s := n.segments[seg];
    var c := n.cells[cellTx];
    n.(synapses := n.synapses + [Synapse(cellTx, seg, permanence)],
       segments := n.segments[seg := s.(synapses := s.synapses + [id])],
       cells := n.cells[cellTx := c.(axonSynapses := c.axonSynapses + [id])])
  }

  lemma NewSynapseWellFormed(n: Net, cellTx: nat, seg: nat, permanence: int)
    requires WellFormed(n)
    requires cellTx < |n.cells| && seg < |n.segments|
    ensures WellFormed(NewSynapse(n, cellTx, seg, permanence))
  {
    NewSynapseHandles(n, cellTx, seg, permanence);
    NewSynapseRegistered(n, cellTx, seg, permanence);
  }

  lemma NewSynapseHandles(n: Net, cellTx: nat, seg: nat, permanence: int)
    requires HandlesValid(n)
    requires cellTx < |n.cells| && seg < |n.segments|
    ensures HandlesValid(NewSynapse(n, cellTx, seg, permanence))
  {
    var r := NewSynapse(n, cellTx, seg, permanence);
    var z, z' := SizesOf(n), SizesOf(r);
    OkGrows(z, z');
    assert SegmentOk(r.segments[seg], z');
    assert CellOk(r.cells[cellTx], z');
  }

  lemma NewSynapseRegistered(n: Net, cellTx: nat, seg: nat, permanence: int)
    requires Registered(n)
    requires cellTx < |n.cells| && seg < |n.segments|
    ensures Registered(NewSynapse(n, cellTx, seg, permanence))
  {
    var r := NewSynapse(n, cellTx, seg, permanence);
    forall i | 0 <= i < |r.synapses|
      ensures i in r.segments[r.synapses[i].segment].synapses
      ensures i in r.cells[r.synapses[i].cellTx].axonSynapses
    {
      if i < |n.synapses| {
        assert r.synapses[i] == n.synapses[i];
        assert i in n.segments[n.synapses[i].segment].synapses;
        assert i in n.cells[n.synapses[i].cellTx].axonSynapses;
      }
    }
    forall i | 0 <= i < |r.segments| && r.segments[i].cellRx.Some?
      ensures i in SegmentsOfKind(r.cells[r.segments[i].cellRx.value], r.segments[i].kind)
    {
      assert SegmentsOfKind(r.cells[r.segments[i].cellRx.value], r.segments[i].kind)
          == SegmentsOfKind(n.cells[n.segments[i].cellRx.value], n.segments[i].kind);
    }
  }

  /** The receiving cell with `id` appended to its list for `kind`. */
  function AddSegmentOfKind(c: Cell, kind: SegmentType, id: nat): (r: Cell)
    ensures SegmentsOfKind(r, kind) == SegmentsOfKind(c, kind) + [id]
    ensures forall k :: k != kind ==> SegmentsOfKind(r, k) == SegmentsOfKind(c, k)
    ensures r == c.(proximalSegments := r.proximalSegments, distalSegments := r.distalSegments,
                    apicalSegments := r.apicalSegments)
  {
    match kind
    case Distal => c.(distalSegments := c.distalSegments + [id])
    case Apical => c.(apicalSegments := c.apicalSegments + [id])
    case Proximal => c.(proximalSegments := c.proximalSegments + [id])
  }

  /** A segment as the `Segment` constructor leaves it. */
  function FreshSegment(kind: SegmentType, cellRx: Option<nat>, column: Option<nat>): Segment
  {
    Segment(kind, cellRx, column, 0, [], [], [], [], [], [], [], false, false)
  }

  /** `new Segment(type, cellRx, column)`; the new handle is `|n.segments|`.
      `column` is `None` when the argument is omitted or null. */
  function NewSegment(n: Net, kind: SegmentType, cellRx: Option<nat>, column: Option<nat>): (r: Net)
    requires cellRx.Some? ==> cellRx.value < |n.cells|
    ensures |r.segments| == |n.segments| + 1 && r.segments[..|n.segments|] == n.segments
    ensures var s := r.segments[|n.segments|];
      && s.kind == kind && s.cellRx == cellRx && s.column == column
      && s.lastUsedTimestep == 0 && !s.active && !s.learning
      && s.synapses == [] && s.activeSynapses == [] && s.connectedSynapses == []
      && s.predictedActiveSynapses == [] && s.activeSynapsesHistory == []
      && s.connectedSynapsesHistory == [] && s.predictedActiveSynapsesHistory == []
    ensures |r.cells| == |n.cells|
    ensures cellRx.None? ==> r.cells == n.cells
    ensures cellRx.Some? ==>
      var c := cellRx.value;
      && SegmentsOfKind(r.cells[c], kind) == SegmentsOfKind(n.cells[c], kind) + [|n.segments|]
      && (forall k :: k != kind ==> SegmentsOfKind(r.cells[c], k) == SegmentsOfKind(n.cells[c], k))
      && r.cells[c] == n.cells[c].(proximalSegments := r.cells[c].proximalSegments,
                                   distalSegments := r.cells[c].distalSegments,
                                   apicalSegments := r.cells[c].apicalSegments)
    ensures forall i :: 0 <= i < |n.cells| && Some(i) != cellRx ==> r.cells[i] == n.cells[i]
    ensures r.synapses == n.synapses && r.columns == n.columns && r.matrices == n.matrices
    ensures r.layers == n.layers && r.timestep == n.timestep
  {
    var id := |n.segments|;
    var n1 := n.(segments := n.segments + [FreshSegment(kind, cellRx, column)]);
    match cellRx
    case None => n1
    case Some(c) => SetCell(n1, c, AddSegmentOfKind(n.cells[c], kind, id))
  }

  lemma AddSegmentOfKindOk(c: Cell, kind: SegmentType, id: nat, z: Sizes)
    requires CellOk(c, z) && id < z.segments
    ensures CellOk(AddSegmentOfKind(c, kind, id), z)
  {
  }

  lemma NewSegmentWellFormed(n: Net, kind: SegmentType, cellRx: Option<nat>, column: Option<nat>)
    requires WellFormed(n)
    requires OptBelow(cellRx, |n.cells|) && OptBelow(column, |n.columns|)
    ensures WellFormed(NewSegment(n, kind, cellRx, column))
  {
    NewSegmentHandles(n, kind, cellRx, column);
    NewSegmentRegistered(n, kind, cellRx, column);
  }

  lemma NewSegmentHandles(n: Net, kind: SegmentType, cellRx: Option<nat>, column: Option<nat>)
    requires HandlesValid(n)
    requires OptBelow(cellRx, |n.cells|) && OptBelow(column, |n.columns|)
    ensures HandlesValid(NewSegment(n, kind, cellRx, column))
  {
    var r := NewSegment(n, kind, cellRx, column);
    var z, z' := SizesOf(n), SizesOf(r);
    OkGrows(z, z');
    assert SegmentOk(r.segments[|n.segments|], z');
    forall i | 0 <= i < |r.segments|
      ensures SegmentOk(r.segments[i], z')
    {
      if i < |n.segments| {
        assert r.segments[i] == n.segments[i];
      }
    }
    forall i | 0 <= i < |r.cells|
      ensures CellOk(r.cells[i], z')
    {
      if Some(i) == cellRx {
        AddSegmentOfKindOk(n.cells[i], kind, |n.segments|, z');
      } else {
        assert r.cells[i] == n.cells[i];
      }
    }
  }

  lemma NewSegmentRegistered(n: Net, kind: SegmentType, cellRx: Option<nat>, column: Option<nat>)
    requires Registered(n)
    requires OptBelow(cellRx, |n.cells|)
    ensures Registered(NewSegment(n, kind, cellRx, column))
  {
    var r := NewSegment(n, kind, cellRx, column);
    forall i | 0 <= i < |r.synapses|
      ensures i in r.cells[r.synapses[i].cellTx].axonSynapses
    {
      assert r.cells[n.synapses[i].cellTx].axonSynapses == n.cells[n.synapses[i].cellTx].axonSynapses;
    }
    NewSegmentListed(n, kind, cellRx, column);
    forall i | 0 <= i < |r.cells|
      ensures i in r.matrices[r.cells[i].matrix].cells
    {
      assert r.cells[i].matrix == n.cells[i].matrix;
    }
  }

  /** The segment part of `Registered` after `NewSegment`. */
  lemma NewSegmentListed(n: Net, kind: SegmentType, cellRx: Option<nat>, column: Option<nat>)
    requires Registered(n)
    requires OptBelow(cellRx, |n.cells|)
    ensures var r := NewSegment(n, kind, cellRx, column);
      forall i :: 0 <= i < |r.segments| && r.segments[i].cellRx.Some? ==>
        && r.segments[i].cellRx.value < |r.cells|
        && i in SegmentsOfKind(r.cells[r.segments[i].cellRx.value], r.segments[i].kind)
  {
    var r := NewSegment(n, kind, cellRx, column);
    forall i | 0 <= i < |r.segments| && r.segments[i].cellRx.Some?
      ensures r.segments[i].cellRx.value < |r.cells|
      ensures i in SegmentsOfKind(r.cells[r.segments[i].cellRx.value], r.segments[i].kind)
    {
      var c := r.segments[i].cellRx.value;
      if i < |n.segments| {
        assert r.segments[i] == n.segments[i];
        assert i in SegmentsOfKind(n.cells[c], n.segments[i].kind);
        assert forall k :: i in SegmentsOfKind(n.cells[c], k) ==> i in SegmentsOfKind(r.cells[c], k);
      }
    }
  }

  /** `new Cell(matrix, index, x, y, column)`; the new handle is `|n.cells|`.
      An omitted `x`, `y` or `column` is `None`. */
  function NewCell(n: Net, matrix: nat, index: nat, x: Option<nat>, y: Option<nat>, column: Option<nat>): (r: Net)
    requires matrix < |n.matrices|
    ensures |r.cells| == |n.cells| + 1 && r.cells[..|n.cells|] == n.cells
    ensures var c := r.cells[|n.cells|];
      && c.matrix == matrix && c.index == index
      && c.x == (if x.Some? then x.value else index)
      && c.y == (if y.Some? then y.value else 0)
      && c.column == column
      && c.axonSynapses == [] && c.proximalSegments == [] && c.distalSegments == [] && c.apicalSegments == []
      && c.distalLearnSegment.None? && c.apicalLearnSegment.None?
      && !c.active && !c.predictedActive && !c.predictive && !c.learning
    ensures |r.matrices| == |n.matrices|
    ensures r.matrices[matrix] == n.matrices[matrix].(cells := n.matrices[matrix].cells + [|n.cells|])
    ensures forall i :: 0 <= i < |n.matrices| && i != matrix ==> r.matrices[i] == n.matrices[i]
    ensures r.segments == n.segments && r.synapses == n.synapses && r.columns == n.columns
    ensures r.layers == n.layers && r.timestep == n.timestep
  {
    var cell := Cell(matrix, index,
                     match x case Some(v) => v case None => index,
                     match y case Some(v) => v case None => 0,
                     column, [], [], [], [], None, None, false, false, false, false);
    var m := n.matrices[matrix];
    n.(cells := n.cells + [cell],
       matrices := n.matrices[matrix := m.(cells := m.cells + [|n.cells|])])
  }

  lemma NewCellWellFormed(n: Net, matrix: nat, index: nat, x: Option<nat>, y: Option<nat>, column: Option<nat>)
    requires WellFormed(n)
    requires matrix < |n.matrices| && OptBelow(column, |n.columns|)
    ensures WellFormed(NewCell(n, matrix, index, x, y, column))
  {
    var r := NewCell(n, matrix, index, x, y, column);
    var z, z' := SizesOf(n), SizesOf(r);
    OkGrows(z, z');
    assert MatrixOk(r.matrices[matrix], z');
    assert CellOk(r.cells[|n.cells|], z');
    forall i | 0 <= i < |r.cells|
      ensures i in r.matrices[r.cells[i].matrix].cells
    {
      if i < |n.cells| {
        assert r.cells[i] == n.cells[i];
        assert i in n.matrices[n.cells[i].matrix].cells;
      }
    }
    forall i | 0 <= i < |r.segments| && r.segments[i].cellRx.Some?
      ensures i in SegmentsOfKind(r.cells[r.segments[i].cellRx.value], r.segments[i].kind)
    {
      assert r.cells[r.segments[i].cellRx.value] == n.cells[n.segments[i].cellRx.value];
    }
  }

  /** `new CellMatrix(params, cells)`; the new handle is `|n.matrices|`. An
      omitted `cells` is `None`. */
  function NewCellMatrix(n: Net, params: Params, cells: Option<seq<nat>>): (r: Net)
    ensures |r.matrices| == |n.matrices| + 1 && r.matrices[..|n.matrices|] == n.matrices
    ensures var m := r.matrices[|n.matrices|];
      && m.params == params
      && m.cells == (if cells.Some? then cells.value else [])
      && m.activeCells == [] && m.learningCells == [] && m.predictiveCells == []
      && m.activeCellHistory == [] && m.learningCellHistory == [] && m.predictiveCellHistory == []
    ensures r.cells == n.cells && r.segments == n.segments && r.synapses == n.synapses
    ensures r.columns == n.columns && r.layers == n.layers && r.timestep == n.timestep
  {
    var cs := match cells case Some(v) => v case None => [];
    n.(matrices := n.matrices + [CellMatrix(params, cs, [], [], [], [], [], [])])
  }

  lemma NewCellMatrixWellFormed(n: Net, params: Params)
    requires WellFormed(n)
    ensures WellFormed(NewCellMatrix(n, params, None))
  {
    var r := NewCellMatrix(n, params, None);
    OkGrows(SizesOf(n), SizesOf(r));
  }

  /** `[from, from + 1, ..., from + count - 1]`: the handles a run of
      appends receives. */
  function Ids(from: nat, count: nat): (r: seq<nat>)
    ensures |r| == count
    ensures forall i :: 0 <= i < count ==> r[i] == from + i
  {
    if count == 0 then [] else Ids(from, count - 1) + [from + count - 1]
  }

  lemma IdsCons(from: nat, count: nat)
    ensures [from] + Ids(from + 1, count) == Ids(from, count + 1)
  {
    var a, b := [from] + Ids(from + 1, count), Ids(from, count + 1);
    assert |a| == |b|;
    forall i | 0 <= i < |a| ensures a[i] == b[i] {
      if i > 0 { assert a[i] == Ids(from + 1, count)[i - 1]; }
    }
  }

  /** A cell as `new Cell(matrix, index, x, y, column)` leaves it. */
  function FreshCell(matrix: nat, index: nat, x: nat, y: nat, column: Option<nat>): Cell
  {
    Cell(matrix, index, x, y, column, [], [], [], [], None, None, false, false, false, false)
  }

  /** A column as the `Column` constructor starts it, before its cells. */
  function FreshColumn(index: nat, layer: nat, proximalSegment: nat): Column
  {
    Column(index, layer, 0, 0, None, 0, 0, 0, [], proximalSegment, None, [], None, [])
  }

  /** The cells from handle `from` on are the fresh cells of one column:
      the `k`-th has index `firstIndex + k` and `y == firstY + k`. */
  predicate FreshRun(cells: seq<Cell>, from: nat, matrix: nat, firstIndex: nat, x: nat, firstY: nat, col: nat)
  {
    forall i :: from <= i < |cells| ==>
      cells[i] == FreshCell(matrix, firstIndex + (i - from), x, firstY + (i - from), Some(col))
  }

  /** One iteration of the cell loop of the `Column` constructor
      (lines 31-34): cell `c` gets index `cellIndex + c`, `x` the column
      index and `y == c`, and goes both to the matrix and to the column. */
  function AddColumnCell(n: Net, col: nat, index: nat, cellIndex: nat, matrix: nat, c: nat): (r: Net)
    requires col < |n.columns| && matrix < |n.matrices|
    ensures |r.cells| == |n.cells| + 1 && r.cells[..|n.cells|] == n.cells
    ensures r.cells[|n.cells|] == FreshCell(matrix, cellIndex + c, index, c, Some(col))
    ensures |r.columns| == |n.columns|
    ensures r.columns[col] == n.columns[col].(cells := n.columns[col].cells + [|n.cells|])
    ensures forall i :: 0 <= i < |n.columns| && i != col ==> r.columns[i] == n.columns[i]
    ensures |r.matrices| == |n.matrices|
    ensures r.matrices[matrix] == n.matrices[matrix].(cells := n.matrices[matrix].cells + [|n.cells|])
    ensures forall i :: 0 <= i < |n.matrices| && i != matrix ==> r.matrices[i] == n.matrices[i]
    ensures r.segments == n.segments && r.synapses == n.synapses && r.layers == n.layers
    ensures r.timestep == n.timestep
  {
    var id := |n.cells|;
    var n1 := NewCell(n, matrix, cellIndex + c, Some(index), Some(c), Some(col));
    SetColumn(n1, col, n1.columns[col].(cells := n1.columns[col].cells + [id]))
  }

  /** The cell loop of the `Column` constructor from iteration `c` on. */
  function AddColumnCells(n: Net, col: nat, index: nat, cellIndex: nat, count: nat, matrix: nat, c: nat): (r: Net)
    requires col < |n.columns| && matrix < |n.matrices| && c <= count
    ensures |r.columns| == |n.columns| && |r.matrices| == |n.matrices|
    ensures |r.cells| == |n.cells| + (count - c)
    ensures r.segments == n.segments && r.synapses == n.synapses && r.layers == n.layers
    ensures r.timestep == n.timestep
    decreases count - c
  {
    if c >= count then n
    else AddColumnCells(AddColumnCell(n, col, index, cellIndex, matrix, c), col, index, cellIndex, count, matrix, c + 1)
  }

  lemma AddColumnCellsFacts(n: Net, col: nat, index: nat, cellIndex: nat, count: nat, matrix: nat, c: nat)
    requires col < |n.columns| && matrix < |n.matrices| && c <= count
    ensures var r := AddColumnCells(n, col, index, cellIndex, count, matrix, c);
      && |r.cells| == |n.cells| + (count - c) && r.cells[..|n.cells|] == n.cells
      && FreshRun(r.cells, |n.cells|, matrix, cellIndex + c, index, c, col)
      && r.columns[col] == n.columns[col].(cells := n.columns[col].cells + Ids(|n.cells|, count - c))
      && (forall i :: 0 <= i < |n.columns| && i != col ==> r.columns[i] == n.columns[i])
      && r.matrices[matrix] == n.matrices[matrix].(cells := n.matrices[matrix].cells + Ids(|n.cells|, count - c))
      && (forall i :: 0 <= i < |n.matrices| && i != matrix ==> r.matrices[i] == n.matrices[i])
      && r.segments == n.segments && r.synapses == n.synapses && r.layers == n.layers
      && r.timestep == n.timestep
  {
    AddColumnCellsRun(n, col, index, cellIndex, count, matrix, c);
    AddColumnCellsLists(n, col, index, cellIndex, count, matrix, c);
    AddColumnCellsRest(n, col, index, cellIndex, count, matrix, c);
  }

  /** The cells the loop creates: consecutive fresh cells after the old ones. */
  lemma AddColumnCellsRun(n: Net, col: nat, index: nat, cellIndex: nat, count: nat, matrix: nat, c: nat)
    requires col < |n.columns| && matrix < |n.matrices| && c <= count
    ensures var r := AddColumnCells(n, col, index, cellIndex, count, matrix, c);
      && |r.cells| == |n.cells| + (count - c) && r.cells[..|n.cells|] == n.cells
      && FreshRun(r.cells, |n.cells|, matrix, cellIndex + c, index, c, col)
  {
    AddColumnCellsPrefix(n, col, index, cellIndex, count, matrix, c);
    AddColumnCellsFresh(n, col, index, cellIndex, count, matrix, c);
  }

  lemma {:induction false} AddColumnCellsPrefix(n: Net, col: nat, index: nat, cellIndex: nat, count: nat, matrix: nat, c: nat)
    requires col < |n.columns| && matrix < |n.matrices| && c <= count
    ensures var r := AddColumnCells(n, col, index, cellIndex, count, matrix, c);
      forall i :: 0 <= i < |n.cells| ==> r.cells[i] == n.cells[i]
    decreases count - c
  {
    if c < count {
      var n1 := AddColumnCell(n, col, index, cellIndex, matrix, c);
      AddColumnCellsPrefix(n1, col, index, cellIndex, count, matrix, c + 1);
      assert forall i :: 0 <= i < |n.cells| ==> n1.cells[i] == n1.cells[..|n.cells|][i];
    }
  }

  lemma {:induction false} AddColumnCellsFresh(n: Net, col: nat, index: nat, cellIndex: nat, count: nat, matrix: nat, c: nat)
    requires col < |n.columns| && matrix < |n.matrices| && c <= count
    ensures var r := AddColumnCells(n, col, index, cellIndex, count, matrix, c);
      FreshRun(r.cells, |n.cells|, matrix, cellIndex + c, index, c, col)
    decreases count - c
  {
    if c < count {
      var id := |n.cells|;
      var n1 := AddColumnCell(n, col, index, cellIndex, matrix, c);
      AddColumnCellsFresh(n1, col, index, cellIndex, count, matrix, c + 1);
      AddColumnCellsPrefix(n1, col, index, cellIndex, count, matrix, c + 1);
      var r := AddColumnCells(n1, col, index, cellIndex, count, matrix, c + 1);
      assert r.cells[id] == FreshCell(matrix, cellIndex + c, index, c, Some(col));
    }
  }

  /** The loop appends the new handles to the column and to the matrix. */
  lemma AddColumnCellsLists(n: Net, col: nat, index: nat, cellIndex: nat, count: nat, matrix: nat, c: nat)
    requires col < |n.columns| && matrix < |n.matrices| && c <= count
    ensures var r := AddColumnCells(n, col, index, cellIndex, count, matrix, c);
      && r.columns[col] == n.columns[col].(cells := n.columns[col].cells + Ids(|n.cells|, count - c))
      && r.matrices[matrix] == n.matrices[matrix].(cells := n.matrices[matrix].cells + Ids(|n.cells|, count - c))
  {
    AddColumnCellsColumn(n, col, index, cellIndex, count, matrix, c);
    AddColumnCellsMatrix(n, col, index, cellIndex, count, matrix, c);
  }

  lemma {:induction false} AddColumnCellsColumn(n: Net, col: nat, index: nat, cellIndex: nat, count: nat, matrix: nat, c: nat)
    requires col < |n.columns| && matrix < |n.matrices| && c <= count
    ensures var r := AddColumnCells(n, col, index, cellIndex, count, matrix, c);
      r.columns[col] == n.columns[col].(cells := n.columns[col].cells + Ids(|n.cells|, count - c))
    decreases count - c
  {
    if c >= count {
      assert Ids(|n.cells|, 0) == [];
    } else {
      var id := |n.cells|;
      var n1 := AddColumnCell(n, col, index, cellIndex, matrix, c);
      AddColumnCellsColumn(n1, col, index, cellIndex, count, matrix, c + 1);
      var C := n.columns[col];
      assert n1.columns[col] == C.(cells := C.cells + [id]);
      IdsCons(id, count - c - 1);
      SeqAssoc(n.columns[col].cells, [id], Ids(id + 1, count - c - 1));
    }
  }

  lemma {:induction false} AddColumnCellsMatrix(n: Net, col: nat, index: nat, cellIndex: nat, count: nat, matrix: nat, c: nat)
    requires col < |n.columns| && matrix < |n.matrices| && c <= count
    ensures var r := AddColumnCells(n, col, index, cellIndex, count, matrix, c);
      r.matrices[matrix] == n.matrices[matrix].(cells := n.matrices[matrix].cells + Ids(|n.cells|, count - c))
    decreases count - c
  {
    if c >= count {
      assert Ids(|n.cells|, 0) == [];
    } else {
      var id := |n.cells|;
      var n1 := AddColumnCell(n, col, index, cellIndex, matrix, c);
      AddColumnCellsMatrix(n1, col, index, cellIndex, count, matrix, c + 1);
      var M := n.matrices[matrix];
      assert n1.matrices[matrix] == M.(cells := M.cells + [id]);
      IdsCons(id, count - c - 1);
      SeqAssoc(n.matrices[matrix].cells, [id], Ids(id + 1, count - c - 1));
    }
  }

  /** The loop changes no other column or matrix, and no segment, synapse or layer. */
  lemma {:induction false} AddColumnCellsRest(n: Net, col: nat, index: nat, cellIndex: nat, count: nat, matrix: nat, c: nat)
    requires col < |n.columns| && matrix < |n.matrices| && c <= count
    ensures var r := AddColumnCells(n, col, index, cellIndex, count, matrix, c);
      && (forall i :: 0 <= i < |n.columns| && i != col ==> r.columns[i] == n.columns[i])
      && (forall i :: 0 <= i < |n.matrices| && i != matrix ==> r.matrices[i] == n.matrices[i])
      && r.segments == n.segments && r.synapses == n.synapses && r.layers == n.layers
      && r.timestep == n.timestep
    decreases count - c
  {
    if c < count {
      var n1 := AddColumnCell(n, col, index, cellIndex, matrix, c);
      AddColumnCellsRest(n1, col, index, cellIndex, count, matrix, c + 1);
    }
  }

  /** `new Column(index, cellIndex, cellsPerColumn, layer)`; the new handle
      is `|n.columns|`, its proximal segment is `|n.segments|` and its cells
      are the next `cellsPerColumn` cell handles. `NewColumnFacts` states
      what the new entities hold. */
  function NewColumn(n: Net, index: nat, cellIndex: nat, cellsPerColumn: nat, layer: nat): (r: Net)
    requires layer < |n.layers| && n.layers[layer].cellMatrix < |n.matrices|
    ensures |r.columns| == |n.columns| + 1 && |r.segments| == |n.segments| + 1
    ensures |r.cells| == |n.cells| + cellsPerColumn && |r.matrices| == |n.matrices|
    ensures r.synapses == n.synapses && r.layers == n.layers && r.timestep == n.timestep
  {
    var col := |n.columns|;
    var n1 := n.(columns := n.columns + [FreshColumn(index, layer, |n.segments|)]);
    var n2 := NewSegment(n1, Proximal, None, Some(col));
    AddColumnCells(n2, col, index, cellIndex, cellsPerColumn, n.layers[layer].cellMatrix, 0)
  }

  /** The column starts with zero overlaps, persistence and timestamp, no
      best segments and empty histories; its proximal segment is fresh, has
      no receiving cell and points back at the column; its cells are laid
      out as `FreshRun` says and appended to the layer's matrix in order;
      nothing that existed before changes. */
  lemma NewColumnFacts(n: Net, index: nat, cellIndex: nat, cellsPerColumn: nat, layer: nat)
    requires layer < |n.layers| && n.layers[layer].cellMatrix < |n.matrices|
    ensures var r := NewColumn(n, index, cellIndex, cellsPerColumn, layer);
      && r.columns[..|n.columns|] == n.columns
      && r.columns[|n.columns|].index == index && r.columns[|n.columns|].layer == layer
      && r.columns[|n.columns|] == FreshColumn(index, layer, |n.segments|).(cells := Ids(|n.cells|, cellsPerColumn))
      && r.segments[..|n.segments|] == n.segments
      && r.segments[|n.segments|] == FreshSegment(Proximal, None, Some(|n.columns|))
      && r.cells[..|n.cells|] == n.cells
      && FreshRun(r.cells, |n.cells|, n.layers[layer].cellMatrix, cellIndex, index, 0, |n.columns|)
    ensures var r := NewColumn(n, index, cellIndex, cellsPerColumn, layer); var m := n.layers[layer].cellMatrix;
      && r.matrices[m] == n.matrices[m].(cells := n.matrices[m].cells + Ids(|n.cells|, cellsPerColumn))
      && forall i :: 0 <= i < |n.matrices| && i != m ==> r.matrices[i] == n.matrices[i]
  {
    var col := |n.columns|;
    var n1 := n.(columns := n.columns + [FreshColumn(index, layer, |n.segments|)]);
    var n2 := NewSegment(n1, Proximal, None, Some(col));
    var r := AddColumnCells(n2, col, index, cellIndex, cellsPerColumn, n.layers[layer].cellMatrix, 0);
    AddColumnCellsFacts(n2, col, index, cellIndex, cellsPerColumn, n.layers[layer].cellMatrix, 0);
    assert r == NewColumn(n, index, cellIndex, cellsPerColumn, layer);
    assert Ids(|n.cells|, cellsPerColumn) == [] + Ids(|n.cells|, cellsPerColumn);
    assert r.columns[..|n.columns|] == n2.columns[..|n.columns|];
    assert r.segments[..|n.segments|] == n.segments;
    assert r.cells[..|n.cells|] == n.cells;
  }

  lemma NewColumnWellFormed(n: Net, index: nat, cellIndex: nat, cellsPerColumn: nat, layer: nat)
    requires WellFormed(n)
    requires layer < |n.layers|
    ensures n.layers[layer].cellMatrix < |n.matrices|
    ensures WellFormed(NewColumn(n, index, cellIndex, cellsPerColumn, layer))
  {
    assert LayerOk(n.layers[layer], SizesOf(n));
    NewColumnHandles(n, index, cellIndex, cellsPerColumn, layer);
    NewColumnRegistered(n, index, cellIndex, cellsPerColumn, layer);
  }

  lemma NewColumnHandles(n: Net, index: nat, cellIndex: nat, cellsPerColumn: nat, layer: nat)
    requires HandlesValid(n)
    requires layer < |n.layers| && n.layers[layer].cellMatrix < |n.matrices|
    ensures HandlesValid(NewColumn(n, index, cellIndex, cellsPerColumn, layer))
  {
    var r := NewColumn(n, index, cellIndex, cellsPerColumn, layer);
    NewColumnFacts(n, index, cellIndex, cellsPerColumn, layer);
    var z, z' := SizesOf(n), SizesOf(r);
    var m := n.layers[layer].cellMatrix;
    OkGrows(z, z');
    forall i | 0 <= i < |r.segments| ensures SegmentOk(r.segments[i], z') {
      if i < |n.segments| { assert r.segments[i] == n.segments[i]; }
    }
    forall i | 0 <= i < |r.cells| ensures CellOk(r.cells[i], z') {
      if i < |n.cells| { assert r.cells[i] == n.cells[i]; }
      else { assert r.cells[i] == FreshCell(m, cellIndex + (i - |n.cells|), index, i - |n.cells|, Some(|n.columns|)); }
    }
    forall i | 0 <= i < |r.columns| ensures ColumnOk(r.columns[i], z') {
      if i < |n.columns| { assert r.columns[i] == n.columns[i]; }
    }
    forall i | 0 <= i < |r.matrices| ensures MatrixOk(r.matrices[i], z') {
      if i == m {
        assert MatrixOk(n.matrices[m], z);
      }
    }
  }

  lemma NewColumnRegistered(n: Net, index: nat, cellIndex: nat, cellsPerColumn: nat, layer: nat)
    requires Registered(n)
    requires layer < |n.layers| && n.layers[layer].cellMatrix < |n.matrices|
    ensures Registered(NewColumn(n, index, cellIndex, cellsPerColumn, layer))
  {
    var r := NewColumn(n, index, cellIndex, cellsPerColumn, layer);
    NewColumnFacts(n, index, cellIndex, cellsPerColumn, layer);
    var m := n.layers[layer].cellMatrix;
    forall i | 0 <= i < |r.synapses|
      ensures i in r.segments[r.synapses[i].segment].synapses
      ensures i in r.cells[r.synapses[i].cellTx].axonSynapses
    {
      assert r.segments[n.synapses[i].segment] == n.segments[n.synapses[i].segment];
      assert r.cells[n.synapses[i].cellTx] == n.cells[n.synapses[i].cellTx];
    }
    forall i | 0 <= i < |r.segments| && r.segments[i].cellRx.Some?
      ensures r.segments[i].cellRx.value < |r.cells|
      ensures i in SegmentsOfKind(r.cells[r.segments[i].cellRx.value], r.segments[i].kind)
    {
      assert i < |n.segments|;
      assert r.segments[i] == n.segments[i];
      assert r.cells[n.segments[i].cellRx.value] == n.cells[n.segments[i].cellRx.value];
    }
    forall i | 0 <= i < |r.cells|
      ensures r.cells[i].matrix < |r.matrices|
      ensures i in r.matrices[r.cells[i].matrix].cells
    {
      if i < |n.cells| {
        assert r.cells[i] == n.cells[i];
        assert i in n.matrices[n.cells[i].matrix].cells;
      } else {
        assert r.cells[i] == FreshCell(m, cellIndex + (i - |n.cells|), index, i - |n.cells|, Some(|n.columns|));
        assert r.matrices[m].cells[|n.matrices[m].cells| + (i - |n.cells|)] == i;
      }
    }
  }
}
