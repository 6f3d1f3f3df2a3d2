/** `CellMatrix.resetActiveStates` and `CellMatrix.resetPredictiveStates`:
    the current active, learning and predictive lists move to the front of
    their bounded histories, the flags they stand for are cleared, and the
    segments the active column cells transmit to have their activity lists
    moved into their own histories. */
module CellMatrixOps {
  import opened Base
  import opened Arena

  /** The per-segment step of `resetActiveStates` (cellmatrix lines 43-59):
      a non-empty active (connected) list goes to the front of the active
      (connected) history and is cleared; an empty one leaves its history
      as it is. */
  function Rotate(s: Segment, limit: nat): (r: Segment)
    ensures r.activeSynapses == [] && r.connectedSynapses == []
    ensures |s.activeSynapses| == 0 ==> r.activeSynapsesHistory == s.activeSynapsesHistory
    ensures |s.connectedSynapses| == 0 ==> r.connectedSynapsesHistory == s.connectedSynapsesHistory
    ensures |s.activeSynapses| > 0 && limit > 0 ==>
      && |r.activeSynapsesHistory| == Min(|s.activeSynapsesHistory| + 1, limit)
      && r.activeSynapsesHistory[0] == s.activeSynapses
      && r.activeSynapsesHistory[1..] == s.activeSynapsesHistory[..|r.activeSynapsesHistory| - 1]
    ensures |s.connectedSynapses| > 0 && limit > 0 ==>
      && |r.connectedSynapsesHistory| == Min(|s.connectedSynapsesHistory| + 1, limit)
      && r.connectedSynapsesHistory[0] == s.connectedSynapses
      && r.connectedSynapsesHistory[1..] == s.connectedSynapsesHistory[..|r.connectedSynapsesHistory| - 1]
    ensures r == s.(activeSynapses := [], connectedSynapses := [],
                    activeSynapsesHistory := r.activeSynapsesHistory,
                    connectedSynapsesHistory := r.connectedSynapsesHistory)
  {
    var s1 :=
      if |s.activeSynapses| > 0 then
        s.(activeSynapsesHistory := PushFront(s.activeSynapsesHistory, s.activeSynapses, limit), activeSynapses := [])
      else s;
    if |s1.connectedSynapses| > 0 then
      s1.(connectedSynapsesHistory := PushFront(s1.connectedSynapsesHistory, s1.connectedSynapses, limit), connectedSynapses := [])
    else s1
  }

  /** A segment already reached this step is left alone when reached again:
      the "already processed" guard of cellmatrix lines 43 and 52. */
  lemma RotateIdempotent(s: Segment, limit: nat)
    ensures Rotate(Rotate(s, limit), limit) == Rotate(s, limit)
  {
  }

  /** The segments of the synapses on an axon, in axon order. */
  function AxonSegments(synapses: seq<Synapse>, axon: seq<nat>): seq<nat>
  {
    if axon == [] then []
    else (if axon[0] < |synapses| then [synapses[axon[0]].segment] else []) + AxonSegments(synapses, axon[1..])
  }

  /** The loop over one cell's axon synapses (cellmatrix lines 40-60):
      exactly the segments the axon reaches are rotated. */
  function ClearAxon(segments: seq<Segment>, synapses: seq<Synapse>, axon: seq<nat>, limit: nat): (r: seq<Segment>)
    ensures |r| == |segments|
    ensures forall i :: 0 <= i < |segments| ==>
      r[i] == if i in AxonSegments(synapses, axon) then Rotate(segments[i], limit) else segments[i]
    decreases |axon|
  {
    if axon == [] then segments
    else
      var s1 :=
        if axon[0] < |synapses| && synapses[axon[0]].segment < |segments| then
          var k := synapses[axon[0]].segment;
          segments[k := Rotate(segments[k], limit)]
        else segments;
      var r := ClearAxon(s1, synapses, axon[1..], limit);
      forall i | 0 <= i < |segments| && i in AxonSegments(synapses, axon[1..])
        ensures Rotate(s1[i], limit) == Rotate(segments[i], limit)
      {
        RotateIdempotent(segments[i], limit);
      }
      r
  }

  /** The segments `resetActiveStates` rotates: those reached from the
      axons of the listed cells that sit in a column. */
  function ReachedSegments(cells: seq<Cell>, synapses: seq<Synapse>, list: seq<nat>): seq<nat>
  {
    if list == [] then []
    else
      (if list[0] < |cells| && cells[list[0]].column.Some? then AxonSegments(synapses, cells[list[0]].axonSynapses) else [])
      + ReachedSegments(cells, synapses, list[1..])
  }

  /** Which flags a reset loop clears. */
  datatype CellReset = ClearActive | ClearLearning | ClearPredictive

  /** The body of a reset loop on one cell: `active` (cellmatrix lines
      34-36) or `predictive` (lines 92-94) go with both learn segments;
      `learning` (line 73) goes alone. */
  function ResetCell(c: Cell, which: CellReset): (r: Cell)
    ensures which == ClearActive ==> r == c.(active := false, distalLearnSegment := None, apicalLearnSegment := None)
    ensures which == ClearLearning ==> r == c.(learning := false)
    ensures which == ClearPredictive ==> r == c.(predictive := false, distalLearnSegment := None, apicalLearnSegment := None)
  {
    match which
    case ClearActive => c.(active := false, distalLearnSegment := None, apicalLearnSegment := None)
    case ClearLearning => c.(learning := false)
    case ClearPredictive => c.(predictive := false, distalLearnSegment := None, apicalLearnSegment := None)
  }

  /** A reset loop over a list of cell handles: exactly the listed cells
      are reset, however often they are listed. */
  function ResetCells(cells: seq<Cell>, list: seq<nat>, which: CellReset): (r: seq<Cell>)
    ensures |r| == |cells|
    ensures forall i :: 0 <= i < |cells| ==> r[i] == if i in list then ResetCell(cells[i], which) else cells[i]
    decreases |list|
  {
    if list == [] then cells
    else
      var c1 := if list[0] < |cells| then cells[list[0] := ResetCell(cells[list[0]], which)] else cells;
      ResetCells(c1, list[1..], which)
  }

  /** The segment side of the loop over `activeCells` (cellmatrix lines
      32-62): the axons of the listed cells that sit in a column are
      cleared one cell after another, so exactly the reached segments are
      rotated. The loop's other side only touches cell flags, which decide
      nothing here. */
  function RotateReached(segments: seq<Segment>, synapses: seq<Synapse>, cells: seq<Cell>, list: seq<nat>, limit: nat): (r: seq<Segment>)
    ensures |r| == |segments|
    ensures forall i :: 0 <= i < |segments| ==>
      r[i] == if i in ReachedSegments(cells, synapses, list) then Rotate(segments[i], limit) else segments[i]
    decreases |list|
  {
    if list == [] then segments
    else
      var s1 :=
        if list[0] < |cells| && cells[list[0]].column.Some? then ClearAxon(segments, synapses, cells[list[0]].axonSynapses, limit)
        else segments;
      var r := RotateReached(s1, synapses, cells, list[1..], limit);
      forall i | 0 <= i < |segments| && i in ReachedSegments(cells, synapses, list[1..])
        ensures Rotate(s1[i], limit) == Rotate(segments[i], limit)
      {
        RotateIdempotent(segments[i], limit);
      }
      r
  }

  /** `cellMatrix.resetActiveStates()` (cellmatrix lines 24-77) on the
      matrix with handle `m`; a handle that names no matrix leaves the net
      unchanged. */
  function ResetActiveStates(n: Net, m: nat): (r: Net)
    ensures m >= |n.matrices| ==> r == n
    ensures |r.matrices| == |n.matrices|
    ensures forall i :: 0 <= i < |n.matrices| && i != m ==> r.matrices[i] == n.matrices[i]
    ensures m < |n.matrices| ==>
      var M := n.matrices[m]; var R := r.matrices[m]; var h := M.params.historyLength;
      && R.activeCells == [] && R.learningCells == []
      && R.activeCellHistory == PushFront(M.activeCellHistory, M.activeCells, h)
      && R.learningCellHistory == PushFront(M.learningCellHistory, M.learningCells, h)
      && R == M.(activeCells := [], learningCells := [],
                 activeCellHistory := R.activeCellHistory, learningCellHistory := R.learningCellHistory)
    ensures |r.cells| == |n.cells|
    ensures m < |n.matrices| ==>
      var M := n.matrices[m];
      forall i :: 0 <= i < |n.cells| ==>
        && r.cells[i].active == (n.cells[i].active && i !in M.activeCells)
        && r.cells[i].learning == (n.cells[i].learning && i !in M.learningCells)
        && r.cells[i].distalLearnSegment == (if i in M.activeCells then None else n.cells[i].distalLearnSegment)
        && r.cells[i].apicalLearnSegment == (if i in M.activeCells then None else n.cells[i].apicalLearnSegment)
        && r.cells[i] == n.cells[i].(active := r.cells[i].active, learning := r.cells[i].learning,
                                     distalLearnSegment := r.cells[i].distalLearnSegment,
                                     apicalLearnSegment := r.cells[i].apicalLearnSegment)
    ensures |r.segments| == |n.segments|
    ensures m < |n.matrices| ==>
      var M := n.matrices[m];
      forall i :: 0 <= i < |n.segments| ==>
        r.segments[i] == if i in ReachedSegments(n.cells, n.synapses, M.activeCells)
                         then Rotate(n.segments[i], M.params.historyLength) else n.segments[i]
    ensures r.synapses == n.synapses && r.columns == n.columns && r.layers == n.layers
    ensures r.timestep == n.timestep
  {
    if m >= |n.matrices| then n
    else
      var M := n.matrices[m];
      var h := M.params.historyLength;
      var M' := M.(activeCells := [], learningCells := [],
                   activeCellHistory := PushFront(M.activeCellHistory, M.activeCells, h),
                   learningCellHistory := PushFront(M.learningCellHistory, M.learningCells, h));
      var cells := ResetCells(ResetCells(n.cells, M.activeCells, ClearActive), M.learningCells, ClearLearning);
      n.(cells := cells,
         segments := RotateReached(n.segments, n.synapses, n.cells, M.activeCells, h),
         matrices := n.matrices[m := M'])
  }

  /** `cellMatrix.resetPredictiveStates()` (cellmatrix lines 82-98) on
      the matrix with handle `m`; a handle that names no matrix leaves the
      net unchanged. */
  function ResetPredictiveStates(n: Net, m: nat): (r: Net)
    ensures m >= |n.matrices| ==> r == n
    ensures |r.matrices| == |n.matrices|
    ensures forall i :: 0 <= i < |n.matrices| && i != m ==> r.matrices[i] == n.matrices[i]
    ensures m < |n.matrices| ==>
      var M := n.matrices[m]; var R := r.matrices[m];
      && R.predictiveCells == []
      && R.predictiveCellHistory == PushFront(M.predictiveCellHistory, M.predictiveCells, M.params.historyLength)
      && R == M.(predictiveCells := [], predictiveCellHistory := R.predictiveCellHistory)
    ensures |r.cells| == |n.cells|
    ensures m < |n.matrices| ==>
      var M := n.matrices[m];
      forall i :: 0 <= i < |n.cells| ==>
        && r.cells[i].predictive == (n.cells[i].predictive && i !in M.predictiveCells)
        && r.cells[i].distalLearnSegment == (if i in M.predictiveCells then None else n.cells[i].distalLearnSegment)
        && r.cells[i].apicalLearnSegment == (if i in M.predictiveCells then None else n.cells[i].apicalLearnSegment)
        && r.cells[i] == n.cells[i].(predictive := r.cells[i].predictive,
                                     distalLearnSegment := r.cells[i].distalLearnSegment,
                                     apicalLearnSegment := r.cells[i].apicalLearnSegment)
    ensures r.segments == n.segments && r.synapses == n.synapses && r.columns == n.columns
    ensures r.layers == n.layers && r.timestep == n.timestep
  {
    if m >= |n.matrices| then n
    else
      var M := n.matrices[m];
      var M' := M.(predictiveCells := [],
                   predictiveCellHistory := PushFront(M.predictiveCellHistory, M.predictiveCells, M.params.historyLength));
      n.(cells := ResetCells(n.cells, M.predictiveCells, ClearPredictive), matrices := n.matrices[m := M'])
  }

  /** A pushed history keeps its entries below a bound when the new entry
      is below it too. */
  lemma PushFrontBelow(h: seq<seq<nat>>, x: seq<nat>, limit: nat, bound: nat)
    requires HistoryBelow(h, bound) && IdsBelow(x, bound)
    ensures HistoryBelow(PushFront(h, x, limit), bound)
  {
    var r := PushFront(h, x, limit);
    forall i | 0 <= i < |r| ensures IdsBelow(r[i], bound) {
      if i > 0 { assert r[i] == r[1..][i - 1] == h[i - 1]; }
    }
  }

  lemma RotateOk(s: Segment, limit: nat, z: Sizes)
    requires SegmentOk(s, z)
    ensures SegmentOk(Rotate(s, limit), z)
  {
    if |s.activeSynapses| > 0 {
      PushFrontBelow(s.activeSynapsesHistory, s.activeSynapses, limit, z.synapses);
    }
    if |s.connectedSynapses| > 0 {
      PushFrontBelow(s.connectedSynapsesHistory, s.connectedSynapses, limit, z.synapses);
    }
  }

  /** Resetting active states keeps every handle valid and every
      registration in place. */
  lemma ResetActiveStatesWellFormed(n: Net, m: nat)
    requires WellFormed(n)
    ensures WellFormed(ResetActiveStates(n, m))
  {
    ResetActiveStatesHandles(n, m);
    ResetActiveStatesRegistered(n, m);
  }

  lemma ResetActiveStatesHandles(n: Net, m: nat)
    requires HandlesValid(n)
    ensures HandlesValid(ResetActiveStates(n, m))
  {
    if m < |n.matrices| {
      var r := ResetActiveStates(n, m);
      var z := SizesOf(n);
      assert SizesOf(r) == z;
      var M := n.matrices[m];
      assert MatrixOk(M, z);
      PushFrontBelow(M.activeCellHistory, M.activeCells, M.params.historyLength, z.cells);
      PushFrontBelow(M.learningCellHistory, M.learningCells, M.params.historyLength, z.cells);
      assert MatrixOk(r.matrices[m], z);
      forall i | 0 <= i < |r.segments| ensures SegmentOk(r.segments[i], z) {
        RotateOk(n.segments[i], M.params.historyLength, z);
      }
      forall i | 0 <= i < |r.cells| ensures CellOk(r.cells[i], z) {
        assert CellOk(n.cells[i], z);
      }
    }
  }

  lemma ResetActiveStatesRegistered(n: Net, m: nat)
    requires Registered(n)
    ensures Registered(ResetActiveStates(n, m))
  {
    var r := ResetActiveStates(n, m);
    assert LinksKept(n, r);
    LinksRegistered(n, r);
  }

  /** Resetting predictive states keeps every handle valid and every
      registration in place. */
  lemma ResetPredictiveStatesWellFormed(n: Net, m: nat)
    requires WellFormed(n)
    ensures WellFormed(ResetPredictiveStates(n, m))
  {
    ResetPredictiveStatesHandles(n, m);
    ResetPredictiveStatesRegistered(n, m);
  }

  lemma ResetPredictiveStatesHandles(n: Net, m: nat)
    requires HandlesValid(n)
    ensures HandlesValid(ResetPredictiveStates(n, m))
  {
    if m < |n.matrices| {
      var r := ResetPredictiveStates(n, m);
      var z := SizesOf(n);
      assert SizesOf(r) == z;
      var M := n.matrices[m];
      assert MatrixOk(M, z);
      PushFrontBelow(M.predictiveCellHistory, M.predictiveCells, M.params.historyLength, z.cells);
      assert MatrixOk(r.matrices[m], z);
      forall i | 0 <= i < |r.cells| ensures CellOk(r.cells[i], z) {
        assert CellOk(n.cells[i], z);
      }
    }
  }

  lemma ResetPredictiveStatesRegistered(n: Net, m: nat)
    requires Registered(n)
    ensures Registered(ResetPredictiveStates(n, m))
  {
    var r := ResetPredictiveStates(n, m);
    assert LinksKept(n, r);
    LinksRegistered(n, r);
  }
}
