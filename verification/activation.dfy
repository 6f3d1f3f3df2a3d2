/** `activateCellMatrix` (htm.controller.js lines 330-401): every active cell
    of a matrix transmits along its axon. A synapse onto a column's proximal
    segment raises the column's score when connected; a synapse onto a
    cell's segment is recorded as active (and connected), may put the
    receiving cell into the predictive state, and may make its segment the
    column's best matching segment. */
module Activation {
  import opened Base
  import opened Arena

  /** A synapse is connected when its permanence reaches the transmitting
      matrix's `connectedPermanence`. */
  predicate IsConnected(permanence: int, p: Params)
  {
    permanence >= p.connectedPermanence
  }

  /** The test of lines 373-375 and 385-387: the candidate has more
      connected synapses, or more active synapses, than the current best.
      Either count alone suffices. */
  predicate Outmatches(cand: Segment, best: Segment)
  {
    |cand.connectedSynapses| > |best.connectedSynapses| || |cand.activeSynapses| > |best.activeSynapses|
  }

  /** The column's best matching segment of the given kind; proximal
      segments have none. */
  function BestOf(c: Column, kind: SegmentType): Option<nat>
  {
    match kind
    case Distal => c.bestDistalSegment
    case Apical => c.bestApicalSegment
    case Proximal => None
  }

  function WithBest(c: Column, kind: SegmentType, v: Option<nat>): (r: Column)
    ensures kind != Proximal ==> BestOf(r, kind) == v
    ensures forall k :: k != kind ==> BestOf(r, k) == BestOf(c, k)
    ensures r == c.(bestDistalSegment := r.bestDistalSegment, bestApicalSegment := r.bestApicalSegment)
  {
    match kind
    case Distal => c.(bestDistalSegment := v)
    case Apical => c.(bestApicalSegment := v)
    case Proximal => c
  }

  /** The cell's learn segment of the given kind; proximal segments have none. */
  function LearnSegmentOf(c: Cell, kind: SegmentType): Option<nat>
  {
    match kind
    case Distal => c.distalLearnSegment
    case Apical => c.apicalLearnSegment
    case Proximal => None
  }

  function WithLearnSegment(c: Cell, kind: SegmentType, v: Option<nat>): (r: Cell)
    ensures kind != Proximal ==> LearnSegmentOf(r, kind) == v
    ensures forall k :: k != kind ==> LearnSegmentOf(r, k) == LearnSegmentOf(c, k)
    ensures r == c.(distalLearnSegment := r.distalLearnSegment, apicalLearnSegment := r.apicalLearnSegment)
  {
    match kind
    case Distal => c.(distalLearnSegment := v)
    case Apical => c.(apicalLearnSegment := v)
    case Proximal => c
  }

  /** Lines 343-346: a connected synapse onto a proximal segment adds one to
      its column's score (a `null` score counts as 0). */
  function ScoreColumn(n: Net, k: nat, permanence: int, p: Params): (r: Net)
    requires k < |n.segments|
    ensures |r.columns| == |n.columns|
    ensures forall i :: 0 <= i < |n.columns| ==>
      && ScoreValue(r.columns[i]) == ScoreValue(n.columns[i])
           + (if IsConnected(permanence, p) && n.segments[k].column == Some(i) then 1 else 0)
      && r.columns[i] == n.columns[i].(score := r.columns[i].score)
    ensures r.cells == n.cells && r.segments == n.segments && r.synapses == n.synapses
    ensures r.matrices == n.matrices && r.layers == n.layers && r.timestep == n.timestep
  {
    var seg := n.segments[k];
    if IsConnected(permanence, p) && seg.column.Some? && seg.column.value < |n.columns| then
      var c := seg.column.value;
      SetColumn(n, c, n.columns[c].(score := Some(ScoreValue(n.columns[c]) + 1)))
    else n
  }

  /** Lines 350-354: the synapse joins its segment's active list, and its
      connected list exactly when it is connected. */
  function RecordActive(n: Net, sid: nat, k: nat, permanence: int, p: Params): (r: Net)
    requires k < |n.segments|
    ensures |r.segments| == |n.segments|
    ensures r.segments[k].activeSynapses == n.segments[k].activeSynapses + [sid]
    ensures r.segments[k].connectedSynapses
         == n.segments[k].connectedSynapses + (if IsConnected(permanence, p) then [sid] else [])
    ensures r.segments[k] == n.segments[k].(activeSynapses := r.segments[k].activeSynapses,
                                            connectedSynapses := r.segments[k].connectedSynapses)
    ensures forall i :: 0 <= i < |n.segments| && i != k ==> r.segments[i] == n.segments[i]
    ensures r.cells == n.cells && r.synapses == n.synapses && r.columns == n.columns
    ensures r.matrices == n.matrices && r.layers == n.layers && r.timestep == n.timestep
  {
    var seg := n.segments[k];
    var seg' := seg.(activeSynapses := seg.activeSynapses + [sid],
                     connectedSynapses := seg.connectedSynapses + (if IsConnected(permanence, p) then [sid] else []));
    SetSegment(n, k, seg')
  }

  /** Whether lines 348-365 fire: the synapse is connected, its segment has
      reached `activationThreshold` connected synapses, and the receiving
      cell is not predictive yet. */
  predicate Fires(n: Net, k: nat, connected: bool, p: Params)
    requires k < |n.segments| && n.segments[k].cellRx.Some? && n.segments[k].cellRx.value < |n.cells|
  {
    var cell := n.cells[n.segments[k].cellRx.value];
    connected && |n.segments[k].connectedSynapses| >= p.activationThreshold && !cell.predictive
    && cell.matrix < |n.matrices|
  }

  /** Lines 355-369: when it fires, the receiving cell becomes predictive,
      joins its own matrix's predictive list once, and takes the segment as
      its learn segment of the segment's kind. */
  function MarkPredictive(n: Net, k: nat, connected: bool, p: Params): (r: Net)
    requires k < |n.segments| && n.segments[k].cellRx.Some? && n.segments[k].cellRx.value < |n.cells|
    ensures var rx := n.segments[k].cellRx.value; var fires := Fires(n, k, connected, p);
      && |r.cells| == |n.cells|
      && r.cells[rx].predictive == (n.cells[rx].predictive || fires)
      && LearnSegmentOf(r.cells[rx], n.segments[k].kind)
         == (if fires && n.segments[k].kind != Proximal then Some(k) else LearnSegmentOf(n.cells[rx], n.segments[k].kind))
      && r.cells[rx] == WithLearnSegment(n.cells[rx], n.segments[k].kind,
                          LearnSegmentOf(r.cells[rx], n.segments[k].kind)).(predictive := r.cells[rx].predictive)
      && (forall i :: 0 <= i < |n.cells| && i != rx ==> r.cells[i] == n.cells[i])
      && |r.matrices| == |n.matrices|
      && (forall i :: 0 <= i < |n.matrices| ==>
            r.matrices[i] == n.matrices[i].(predictiveCells := n.matrices[i].predictiveCells
              + (if fires && i == n.cells[rx].matrix then [rx] else [])))
    ensures r.segments == n.segments && r.synapses == n.synapses && r.columns == n.columns
    ensures r.layers == n.layers && r.timestep == n.timestep
  {
    var rx := n.segments[k].cellRx.value;
    var cell := n.cells[rx];
    if Fires(n, k, connected, p) then
      var kind := n.segments[k].kind;
      var M := n.matrices[cell.matrix];
      var n1 := SetCell(n, rx, WithLearnSegment(cell, kind, Some(k)).(predictive := true));
      SetMatrix(n1, cell.matrix, M.(predictiveCells := M.predictiveCells + [rx]))
    else n
  }

  /** The condition of lines 373-378 (and 385-390): there is no best segment
      yet, or the candidate outmatches it, and the candidate has at least
      `minThreshold` active synapses. */
  predicate Improves(segments: seq<Segment>, k: nat, best: Option<nat>, minThreshold: nat)
    requires k < |segments|
  {
    && (best.None? || (best.value < |segments| && Outmatches(segments[k], segments[best.value])))
    && |segments[k].activeSynapses| >= minThreshold
  }

  /** Lines 371-393: the segment becomes its column's best matching segment
      of its kind, and its cell's learn segment, when it improves on the
      current best. */
  function UpdateBest(n: Net, k: nat, p: Params): (r: Net)
    requires k < |n.segments| && n.segments[k].cellRx.Some? && n.segments[k].cellRx.value < |n.cells|
    ensures |r.columns| == |n.columns| && |r.cells| == |n.cells|
    ensures r.segments == n.segments && r.synapses == n.synapses && r.matrices == n.matrices
    ensures r.layers == n.layers && r.timestep == n.timestep
  {
    var seg := n.segments[k];
    var rx := seg.cellRx.value;
    var cell := n.cells[rx];
    if seg.kind == Proximal || cell.column.None? || cell.column.value >= |n.columns| then n
    else
      var col := cell.column.value;
      var best := BestOf(n.columns[col], seg.kind);
      if Improves(n.segments, k, best, p.minThreshold) then
        var n1 := SetColumn(n, col, WithBest(n.columns[col], seg.kind, Some(k)));
        SetCell(n1, rx, WithLearnSegment(cell, seg.kind, Some(k)))
      else n
  }

  /** What `UpdateBest` changes: only the receiving cell's column and the
      receiving cell, and only when the segment improves on the column's
      current best, in which case both now point at the segment. */
  lemma UpdateBestFacts(n: Net, k: nat, p: Params)
    requires k < |n.segments| && n.segments[k].cellRx.Some? && n.segments[k].cellRx.value < |n.cells|
    ensures var r := UpdateBest(n, k, p); var seg := n.segments[k]; var rx := seg.cellRx.value;
      var cell := n.cells[rx];
      var changes := seg.kind != Proximal && cell.column.Some? && cell.column.value < |n.columns|
        && Improves(n.segments, k, BestOf(n.columns[cell.column.value], seg.kind), p.minThreshold);
      && (forall i :: 0 <= i < |n.columns| ==>
            r.columns[i] == if changes && Some(i) == cell.column then WithBest(n.columns[i], seg.kind, Some(k))
                            else n.columns[i])
      && (forall i :: 0 <= i < |n.cells| ==>
            r.cells[i] == if changes && i == rx then WithLearnSegment(n.cells[i], seg.kind, Some(k))
                          else n.cells[i])
  {
  }

  /** The segment is a column's new best only if it has at least
      `minThreshold` active synapses, and it replaces an existing best only
      when it outmatches it. */
  lemma UpdateBestQualified(n: Net, k: nat, p: Params, kind: SegmentType, col: nat)
    requires k < |n.segments| && n.segments[k].cellRx.Some? && n.segments[k].cellRx.value < |n.cells|
    requires col < |n.columns|
    ensures var r := UpdateBest(n, k, p);
      BestOf(r.columns[col], kind) != BestOf(n.columns[col], kind) ==>
        && BestOf(r.columns[col], kind) == Some(k)
        && kind == n.segments[k].kind
        && n.cells[n.segments[k].cellRx.value].column == Some(col)
        && |n.segments[k].activeSynapses| >= p.minThreshold
        && (BestOf(n.columns[col], kind).Some? ==>
              Outmatches(n.segments[k], n.segments[BestOf(n.columns[col], kind).value]))
  {
    UpdateBestFacts(n, k, p);
  }

  /** One synapse of an active cell's axon (lines 337-398). A handle that
      names no synapse, or a synapse whose segment handle names no segment,
      changes nothing. */
  function ActivateSynapse(n: Net, sid: nat, timestep: int, p: Params): (r: Net)
    ensures SizesOf(r) == SizesOf(n)
    ensures r.synapses == n.synapses && r.layers == n.layers && r.timestep == n.timestep
  {
    if sid >= |n.synapses| || n.synapses[sid].segment >= |n.segments| then n
    else
      var syn := n.synapses[sid];
      var k := syn.segment;
      var n1 := SetSegment(n, k, n.segments[k].(lastUsedTimestep := timestep));
      match n.segments[k].cellRx
      case None => ScoreColumn(n1, k, syn.permanence, p)
      case Some(rx) =>
        if rx >= |n.cells| then n1
        else
          var n2 := RecordActive(n1, sid, k, syn.permanence, p);
          var n3 := MarkPredictive(n2, k, IsConnected(syn.permanence, p), p);
          UpdateBest(n3, k, p)
  }

  /** The inner loop over one active cell's axon synapses. */
  function ActivateAxon(n: Net, axon: seq<nat>, timestep: int, p: Params): (r: Net)
    ensures SizesOf(r) == SizesOf(n)
    ensures r.synapses == n.synapses && r.layers == n.layers && r.timestep == n.timestep
    decreases |axon|
  {
    if axon == [] then n
    else ActivateAxon(ActivateSynapse(n, axon[0], timestep, p), axon[1..], timestep, p)
  }

  /** The outer loop over the matrix's active cells; a handle that names no
      cell transmits nothing. */
  function ActivateCells(n: Net, list: seq<nat>, timestep: int, p: Params): (r: Net)
    ensures SizesOf(r) == SizesOf(n)
    ensures r.synapses == n.synapses && r.layers == n.layers && r.timestep == n.timestep
    decreases |list|
  {
    if list == [] then n
    else
      var n1 := if list[0] < |n.cells| then ActivateAxon(n, n.cells[list[0]].axonSynapses, timestep, p) else n;
      ActivateCells(n1, list[1..], timestep, p)
  }

  /** `activateCellMatrix(cellMatrix, timestep)` on the matrix with handle
      `m`, using that matrix's parameters; a handle that names no matrix
      changes nothing. */
  function ActivateCellMatrix(n: Net, m: nat, timestep: int): (r: Net)
    ensures SizesOf(r) == SizesOf(n)
    ensures r.synapses == n.synapses && r.layers == n.layers && r.timestep == n.timestep
    ensures m >= |n.matrices| ==> r == n
  {
    if m >= |n.matrices| then n
    else ActivateCells(n, n.matrices[m].activeCells, timestep, n.matrices[m].params)
  }

  // What one activation step may change.

  /** A cell only gains the predictive flag and changes its learn segments. */
  predicate CellStep(a: Cell, b: Cell)
  {
    && b == a.(predictive := b.predictive, distalLearnSegment := b.distalLearnSegment,
               apicalLearnSegment := b.apicalLearnSegment)
    && (a.predictive ==> b.predictive)
  }

  /** A segment changes its last-used timestep and only appends to its
      active and connected lists. */
  predicate SegmentStep(a: Segment, b: Segment)
  {
    && b == a.(lastUsedTimestep := b.lastUsedTimestep, activeSynapses := b.activeSynapses,
               connectedSynapses := b.connectedSynapses)
    && a.activeSynapses <= b.activeSynapses && a.connectedSynapses <= b.connectedSynapses
  }

  /** A column's score never drops; only it and the best segments change. */
  predicate ColumnStep(a: Column, b: Column)
  {
    && b == a.(score := b.score, bestDistalSegment := b.bestDistalSegment, bestApicalSegment := b.bestApicalSegment)
    && ScoreValue(a) <= ScoreValue(b)
  }

  /** A matrix only appends to its predictive list. */
  predicate MatrixStep(a: CellMatrix, b: CellMatrix)
  {
    b == a.(predictiveCells := b.predictiveCells) && a.predictiveCells <= b.predictiveCells
  }

  /** Everything activation may do to a net: no entity is created, no
      synapse, layer or timestep changes, and every other entity changes
      only as the step predicates allow. */
  predicate ActivationFrame(n: Net, r: Net)
  {
    && SizesOf(r) == SizesOf(n)
    && r.synapses == n.synapses && r.layers == n.layers && r.timestep == n.timestep
    && (forall i :: 0 <= i < |n.cells| ==> CellStep(n.cells[i], r.cells[i]))
    && (forall i :: 0 <= i < |n.segments| ==> SegmentStep(n.segments[i], r.segments[i]))
    && (forall i :: 0 <= i < |n.columns| ==> ColumnStep(n.columns[i], r.columns[i]))
    && (forall i :: 0 <= i < |n.matrices| ==> MatrixStep(n.matrices[i], r.matrices[i]))
  }

  lemma FrameTrans(a: Net, b: Net, c: Net)
    requires ActivationFrame(a, b) && ActivationFrame(b, c)
    ensures ActivationFrame(a, c)
  {
    forall i | 0 <= i < |a.segments| ensures SegmentStep(a.segments[i], c.segments[i]) {
      assert SegmentStep(b.segments[i], c.segments[i]);
    }
    forall i | 0 <= i < |a.matrices| ensures MatrixStep(a.matrices[i], c.matrices[i]) {
      assert MatrixStep(b.matrices[i], c.matrices[i]);
    }
  }

  /** Activation adds no structure, so every registration survives it. */
  lemma FrameRegistered(n: Net, r: Net)
    requires ActivationFrame(n, r) && Registered(n)
    ensures Registered(r)
  {
    forall i | 0 <= i < |r.synapses|
      ensures i in r.segments[r.synapses[i].segment].synapses
      ensures i in r.cells[r.synapses[i].cellTx].axonSynapses
    {
      assert SegmentStep(n.segments[n.synapses[i].segment], r.segments[n.synapses[i].segment]);
      assert CellStep(n.cells[n.synapses[i].cellTx], r.cells[n.synapses[i].cellTx]);
    }
    forall i | 0 <= i < |r.segments| && r.segments[i].cellRx.Some?
      ensures i in SegmentsOfKind(r.cells[r.segments[i].cellRx.value], r.segments[i].kind)
    {
      assert SegmentStep(n.segments[i], r.segments[i]);
      var c := n.segments[i].cellRx.value;
      assert CellStep(n.cells[c], r.cells[c]);
      assert SegmentsOfKind(r.cells[c], n.segments[i].kind) == SegmentsOfKind(n.cells[c], n.segments[i].kind);
    }
    forall i | 0 <= i < |r.cells|
      ensures i in r.matrices[r.cells[i].matrix].cells
    {
      assert CellStep(n.cells[i], r.cells[i]);
      assert MatrixStep(n.matrices[n.cells[i].matrix], r.matrices[n.cells[i].matrix]);
    }
  }

  // Invariants of activation.

  /** Every cell on a matrix's predictive list is predictive, belongs to
      that matrix, and is listed once: a cell can enter the list only while
      it is not predictive. */
  predicate PredictiveListed(n: Net)
  {
    forall m :: 0 <= m < |n.matrices| ==>
      && Distinct(n.matrices[m].predictiveCells)
      && forall j :: 0 <= j < |n.matrices[m].predictiveCells| ==>
           && n.matrices[m].predictiveCells[j] < |n.cells|
           && n.cells[n.matrices[m].predictiveCells[j]].predictive
           && n.cells[n.matrices[m].predictiveCells[j]].matrix == m
  }

  /** A best segment reference names a segment with at least `t` active synapses. */
  predicate Qualifies(segments: seq<Segment>, best: Option<nat>, t: nat)
  {
    best.Some? ==> best.value < |segments| && |segments[best.value].activeSynapses| >= t
  }

  /** Both best matching segments of column `i` have at least `t` active synapses. */
  predicate ColumnQualified(n: Net, i: nat, t: nat)
    requires i < |n.columns|
  {
    Qualifies(n.segments, n.columns[i].bestDistalSegment, t)
    && Qualifies(n.segments, n.columns[i].bestApicalSegment, t)
  }

  /** Every best matching segment of every column has at least `t` active synapses. */
  predicate BestQualified(n: Net, t: nat)
  {
    forall i :: 0 <= i < |n.columns| ==> ColumnQualified(n, i, t)
  }

  /** A best segment reference of column `col` names a segment of the right
      kind whose receiving cell sits in `col`. */
  predicate Owned(n: Net, best: Option<nat>, kind: SegmentType, col: nat)
  {
    best.Some? ==>
      && best.value < |n.segments|
      && n.segments[best.value].kind == kind
      && n.segments[best.value].cellRx.Some?
      && n.segments[best.value].cellRx.value < |n.cells|
      && n.cells[n.segments[best.value].cellRx.value].column == Some(col)
  }

  /** Column `i`'s best segments are of the right kind and belong to its cells. */
  predicate ColumnOwned(n: Net, i: nat)
    requires i < |n.columns|
  {
    Owned(n, n.columns[i].bestDistalSegment, Distal, i) && Owned(n, n.columns[i].bestApicalSegment, Apical, i)
  }

  /** Every column's best distal (apical) segment is a distal (apical)
      segment of one of the column's own cells. */
  predicate BestOwned(n: Net)
  {
    forall i :: 0 <= i < |n.columns| ==> ColumnOwned(n, i)
  }

  /** What a run of activation steps with parameters `p` keeps: the frame,
      valid handles, the predictive lists, and best segments that qualify
      under `p.minThreshold` and belong to their column. */
  predicate ActivationKeeps(n: Net, r: Net, p: Params)
  {
    && ActivationFrame(n, r)
    && (HandlesValid(n) ==> HandlesValid(r))
    && (PredictiveListed(n) ==> PredictiveListed(r))
    && (forall i :: 0 <= i < |n.columns| && ColumnQualified(n, i, p.minThreshold) ==> ColumnQualified(r, i, p.minThreshold))
    && (forall i :: 0 <= i < |n.columns| && ColumnOwned(n, i) ==> ColumnOwned(r, i))
  }

  lemma KeepsTrans(a: Net, b: Net, c: Net, p: Params)
    requires ActivationKeeps(a, b, p) && ActivationKeeps(b, c, p)
    ensures ActivationKeeps(a, c, p)
  {
    FrameTrans(a, b, c);
  }

  lemma ScoreColumnKeeps(n: Net, k: nat, permanence: int, p: Params)
    requires k < |n.segments|
    ensures ActivationKeeps(n, ScoreColumn(n, k, permanence, p), p)
  {
    var r := ScoreColumn(n, k, permanence, p);
    assert SizesOf(r) == SizesOf(n);
    if HandlesValid(n) {
      forall i | 0 <= i < |r.columns| ensures ColumnOk(r.columns[i], SizesOf(r)) {
        assert ColumnOk(n.columns[i], SizesOf(n));
      }
    }
  }

  lemma RecordActiveKeeps(n: Net, sid: nat, k: nat, permanence: int, p: Params)
    requires k < |n.segments| && sid < |n.synapses|
    ensures ActivationKeeps(n, RecordActive(n, sid, k, permanence, p), p)
  {
    var r := RecordActive(n, sid, k, permanence, p);
    assert SizesOf(r) == SizesOf(n);
    assert n.segments[k].activeSynapses <= r.segments[k].activeSynapses;
    assert n.segments[k].connectedSynapses <= r.segments[k].connectedSynapses;
    if HandlesValid(n) {
      forall i | 0 <= i < |r.segments| ensures SegmentOk(r.segments[i], SizesOf(r)) {
        assert SegmentOk(n.segments[i], SizesOf(n));
      }
    }
    forall i | 0 <= i < |n.columns| && ColumnQualified(n, i, p.minThreshold)
      ensures ColumnQualified(r, i, p.minThreshold)
    {
    }
    forall i | 0 <= i < |n.columns| && ColumnOwned(n, i) ensures ColumnOwned(r, i) {
    }
  }

  lemma MarkPredictiveKeeps(n: Net, k: nat, connected: bool, p: Params)
    requires k < |n.segments| && n.segments[k].cellRx.Some? && n.segments[k].cellRx.value < |n.cells|
    ensures ActivationKeeps(n, MarkPredictive(n, k, connected, p), p)
  {
    var r := MarkPredictive(n, k, connected, p);
    var rx := n.segments[k].cellRx.value;
    assert SizesOf(r) == SizesOf(n);
    assert CellStep(n.cells[rx], r.cells[rx]);
    assert forall i :: 0 <= i < |n.matrices| ==> MatrixStep(n.matrices[i], r.matrices[i]);
    if HandlesValid(n) {
      MarkPredictiveHandles(n, k, connected, p);
    }
    if PredictiveListed(n) {
      MarkPredictiveListed(n, k, connected, p);
    }
    forall i | 0 <= i < |n.columns| && ColumnOwned(n, i) ensures ColumnOwned(r, i) {
    }
  }

  lemma MarkPredictiveHandles(n: Net, k: nat, connected: bool, p: Params)
    requires k < |n.segments| && n.segments[k].cellRx.Some? && n.segments[k].cellRx.value < |n.cells|
    requires HandlesValid(n)
    ensures HandlesValid(MarkPredictive(n, k, connected, p))
  {
    var r := MarkPredictive(n, k, connected, p);
    var z := SizesOf(n);
    assert SizesOf(r) == z;
    forall i | 0 <= i < |r.cells| ensures CellOk(r.cells[i], z) {
      assert CellOk(n.cells[i], z);
    }
    forall i | 0 <= i < |r.matrices| ensures MatrixOk(r.matrices[i], z) {
      assert MatrixOk(n.matrices[i], z);
    }
  }

  lemma MarkPredictiveListed(n: Net, k: nat, connected: bool, p: Params)
    requires k < |n.segments| && n.segments[k].cellRx.Some? && n.segments[k].cellRx.value < |n.cells|
    requires PredictiveListed(n)
    ensures PredictiveListed(MarkPredictive(n, k, connected, p))
  {
    var r := MarkPredictive(n, k, connected, p);
    var rx := n.segments[k].cellRx.value;
    if Fires(n, k, connected, p) {
      var mm := n.cells[rx].matrix;
      forall m | 0 <= m < |r.matrices|
        ensures Distinct(r.matrices[m].predictiveCells)
        ensures forall j :: 0 <= j < |r.matrices[m].predictiveCells| ==>
           && r.matrices[m].predictiveCells[j] < |r.cells|
           && r.cells[r.matrices[m].predictiveCells[j]].predictive
           && r.cells[r.matrices[m].predictiveCells[j]].matrix == m
      {
        var old_ := n.matrices[m].predictiveCells;
        var new_ := r.matrices[m].predictiveCells;
        assert rx !in old_;
        if m == mm {
          assert new_ == old_ + [rx];
          forall a, b | 0 <= a < b < |new_| ensures new_[a] != new_[b] {
            if b == |old_| { assert new_[a] == old_[a]; }
          }
        }
      }
    }
  }

  lemma UpdateBestKeeps(n: Net, k: nat, p: Params)
    requires k < |n.segments| && n.segments[k].cellRx.Some? && n.segments[k].cellRx.value < |n.cells|
    ensures ActivationKeeps(n, UpdateBest(n, k, p), p)
  {
    UpdateBestFrame(n, k, p);
    if HandlesValid(n) {
      UpdateBestHandles(n, k, p);
    }
    if PredictiveListed(n) {
      UpdateBestListed(n, k, p);
    }
    UpdateBestKeepsQualified(n, k, p);
    UpdateBestKeepsOwned(n, k, p);
  }

  lemma UpdateBestFrame(n: Net, k: nat, p: Params)
    requires k < |n.segments| && n.segments[k].cellRx.Some? && n.segments[k].cellRx.value < |n.cells|
    ensures ActivationFrame(n, UpdateBest(n, k, p))
  {
    UpdateBestFacts(n, k, p);
  }

  lemma UpdateBestHandles(n: Net, k: nat, p: Params)
    requires k < |n.segments| && n.segments[k].cellRx.Some? && n.segments[k].cellRx.value < |n.cells|
    requires HandlesValid(n)
    ensures HandlesValid(UpdateBest(n, k, p))
  {
    var r := UpdateBest(n, k, p);
    UpdateBestFacts(n, k, p);
    var z := SizesOf(n);
    assert SizesOf(r) == z;
    forall i | 0 <= i < |r.cells| ensures CellOk(r.cells[i], z) {
      assert CellOk(n.cells[i], z);
    }
    forall i | 0 <= i < |r.columns| ensures ColumnOk(r.columns[i], z) {
      assert ColumnOk(n.columns[i], z);
    }
  }

  lemma UpdateBestListed(n: Net, k: nat, p: Params)
    requires k < |n.segments| && n.segments[k].cellRx.Some? && n.segments[k].cellRx.value < |n.cells|
    requires PredictiveListed(n)
    ensures PredictiveListed(UpdateBest(n, k, p))
  {
    var r := UpdateBest(n, k, p);
    UpdateBestFrame(n, k, p);
    forall m, j | 0 <= m < |r.matrices| && 0 <= j < |r.matrices[m].predictiveCells|
      ensures r.cells[r.matrices[m].predictiveCells[j]].predictive
      ensures r.cells[r.matrices[m].predictiveCells[j]].matrix == m
    {
      var c := n.matrices[m].predictiveCells[j];
      assert CellStep(n.cells[c], r.cells[c]);
    }
  }

  lemma UpdateBestKeepsQualified(n: Net, k: nat, p: Params)
    requires k < |n.segments| && n.segments[k].cellRx.Some? && n.segments[k].cellRx.value < |n.cells|
    ensures forall i :: 0 <= i < |n.columns| && ColumnQualified(n, i, p.minThreshold) ==>
      ColumnQualified(UpdateBest(n, k, p), i, p.minThreshold)
  {
    var r := UpdateBest(n, k, p);
    UpdateBestFacts(n, k, p);
    forall i | 0 <= i < |n.columns| && ColumnQualified(n, i, p.minThreshold)
      ensures ColumnQualified(r, i, p.minThreshold)
    {
    }
  }

  lemma UpdateBestKeepsOwned(n: Net, k: nat, p: Params)
    requires k < |n.segments| && n.segments[k].cellRx.Some? && n.segments[k].cellRx.value < |n.cells|
    ensures forall i :: 0 <= i < |n.columns| && ColumnOwned(n, i) ==> ColumnOwned(UpdateBest(n, k, p), i)
  {
    var r := UpdateBest(n, k, p);
    UpdateBestFacts(n, k, p);
    forall i | 0 <= i < |n.columns| && ColumnOwned(n, i) ensures ColumnOwned(r, i) {
    }
  }

  lemma TouchKeeps(n: Net, k: nat, timestep: int, p: Params)
    requires k < |n.segments|
    ensures ActivationKeeps(n, SetSegment(n, k, n.segments[k].(lastUsedTimestep := timestep)), p)
  {
    var r := SetSegment(n, k, n.segments[k].(lastUsedTimestep := timestep));
    assert SizesOf(r) == SizesOf(n);
    if HandlesValid(n) {
      assert SegmentOk(n.segments[k], SizesOf(n));
    }
    forall i | 0 <= i < |n.columns| && ColumnOwned(n, i) ensures ColumnOwned(r, i) {
    }
  }

  lemma ActivateSynapseKeeps(n: Net, sid: nat, timestep: int, p: Params)
    ensures ActivationKeeps(n, ActivateSynapse(n, sid, timestep, p), p)
  {
    if sid < |n.synapses| && n.synapses[sid].segment < |n.segments| {
      var syn := n.synapses[sid];
      var k := syn.segment;
      var n1 := SetSegment(n, k, n.segments[k].(lastUsedTimestep := timestep));
      TouchKeeps(n, k, timestep, p);
      match n.segments[k].cellRx
      case None =>
        ScoreColumnKeeps(n1, k, syn.permanence, p);
        KeepsTrans(n, n1, ScoreColumn(n1, k, syn.permanence, p), p);
      case Some(rx) =>
        if rx < |n.cells| {
          var n2 := RecordActive(n1, sid, k, syn.permanence, p);
          var n3 := MarkPredictive(n2, k, IsConnected(syn.permanence, p), p);
          RecordActiveKeeps(n1, sid, k, syn.permanence, p);
          MarkPredictiveKeeps(n2, k, IsConnected(syn.permanence, p), p);
          UpdateBestKeeps(n3, k, p);
          KeepsTrans(n, n1, n2, p);
          KeepsTrans(n, n2, n3, p);
          KeepsTrans(n, n3, UpdateBest(n3, k, p), p);
        }
    }
  }

  lemma {:induction false} ActivateAxonKeeps(n: Net, axon: seq<nat>, timestep: int, p: Params)
    ensures ActivationKeeps(n, ActivateAxon(n, axon, timestep, p), p)
    decreases |axon|
  {
    if axon != [] {
      var n1 := ActivateSynapse(n, axon[0], timestep, p);
      ActivateSynapseKeeps(n, axon[0], timestep, p);
      ActivateAxonKeeps(n1, axon[1..], timestep, p);
      KeepsTrans(n, n1, ActivateAxon(n1, axon[1..], timestep, p), p);
    }
  }

  lemma {:induction false} ActivateCellsKeeps(n: Net, list: seq<nat>, timestep: int, p: Params)
    ensures ActivationKeeps(n, ActivateCells(n, list, timestep, p), p)
    decreases |list|
  {
    if list != [] {
      var n1 := if list[0] < |n.cells| then ActivateAxon(n, n.cells[list[0]].axonSynapses, timestep, p) else n;
      if list[0] < |n.cells| {
        ActivateAxonKeeps(n, n.cells[list[0]].axonSynapses, timestep, p);
      }
      ActivateCellsKeeps(n1, list[1..], timestep, p);
      KeepsTrans(n, n1, ActivateCells(n1, list[1..], timestep, p), p);
    }
  }

  /** Activating a matrix creates nothing, keeps the net well formed and
      keeps the predictive lists duplicate-free and truthful; best segments
      chosen in it have at least the matrix's `minThreshold` active
      synapses and belong to the column of their receiving cell. */
  lemma ActivateCellMatrixKeeps(n: Net, m: nat, timestep: int)
    requires m < |n.matrices|
    ensures var r := ActivateCellMatrix(n, m, timestep);
      && ActivationFrame(n, r)
      && (WellFormed(n) ==> WellFormed(r))
      && (PredictiveListed(n) ==> PredictiveListed(r))
      && (forall i :: 0 <= i < |n.columns| && ColumnQualified(n, i, n.matrices[m].params.minThreshold) ==>
            ColumnQualified(r, i, n.matrices[m].params.minThreshold))
      && (forall i :: 0 <= i < |n.columns| && ColumnOwned(n, i) ==> ColumnOwned(r, i))
      && (BestQualified(n, n.matrices[m].params.minThreshold) ==> BestQualified(r, n.matrices[m].params.minThreshold))
      && (BestOwned(n) ==> BestOwned(r))
  {
    var r := ActivateCellMatrix(n, m, timestep);
    ActivateCellsKeeps(n, n.matrices[m].activeCells, timestep, n.matrices[m].params);
    if WellFormed(n) {
      FrameRegistered(n, r);
    }
  }

  /** A synapse onto a column's proximal segment (lines 338-343): the
      segment is stamped with the timestep and exactly the segment's column
      gains one point of score, and only when the synapse is connected. */
  lemma ActivateSynapseScore(n: Net, sid: nat, timestep: int, p: Params)
    requires sid < |n.synapses| && n.synapses[sid].segment < |n.segments|
    requires n.segments[n.synapses[sid].segment].cellRx.None?
    ensures var r := ActivateSynapse(n, sid, timestep, p); var k := n.synapses[sid].segment;
      && r.segments[k].lastUsedTimestep == timestep
      && forall i :: 0 <= i < |n.columns| ==>
           ScoreValue(r.columns[i]) == ScoreValue(n.columns[i])
             + (if n.synapses[sid].permanence >= p.connectedPermanence && n.segments[k].column == Some(i) then 1 else 0)
  {
  }

  /** A synapse onto a cell's segment (lines 344-366): it is recorded as
      active, and as connected exactly when its permanence reaches
      `connectedPermanence`; the receiving cell is predictive afterwards
      when it was before or when this connected synapse brings the segment
      to `activationThreshold`, and it joins its matrix's predictive list
      exactly when it was not predictive before. */
  lemma ActivateSynapseRecords(n: Net, sid: nat, timestep: int, p: Params)
    requires sid < |n.synapses| && n.synapses[sid].segment < |n.segments|
    requires var k := n.synapses[sid].segment;
      n.segments[k].cellRx.Some? && n.segments[k].cellRx.value < |n.cells|
      && n.cells[n.segments[k].cellRx.value].matrix < |n.matrices|
    ensures var r := ActivateSynapse(n, sid, timestep, p); var k := n.synapses[sid].segment;
      var rx := n.segments[k].cellRx.value; var mm := n.cells[rx].matrix;
      var connected := n.synapses[sid].permanence >= p.connectedPermanence;
      var fires := connected && |r.segments[k].connectedSynapses| >= p.activationThreshold;
      && r.segments[k].lastUsedTimestep == timestep
      && r.segments[k].activeSynapses == n.segments[k].activeSynapses + [sid]
      && r.segments[k].connectedSynapses == n.segments[k].connectedSynapses + (if connected then [sid] else [])
      && r.cells[rx].predictive == (n.cells[rx].predictive || fires)
      && r.matrices[mm].predictiveCells
         == n.matrices[mm].predictiveCells + (if fires && !n.cells[rx].predictive then [rx] else [])
  {
    var k := n.synapses[sid].segment;
    var syn := n.synapses[sid];
    var n1 := SetSegment(n, k, n.segments[k].(lastUsedTimestep := timestep));
    var n2 := RecordActive(n1, sid, k, syn.permanence, p);
    var n3 := MarkPredictive(n2, k, IsConnected(syn.permanence, p), p);
    UpdateBestFacts(n3, k, p);
  }

  /** The best-segment test is not an order: with the "or" of lines
      373-375, each of two segments can outmatch the other, so which one a
      column keeps depends on the order the synapses arrive in. */
  lemma OutmatchesIsNotAnOrder()
    ensures exists a: Segment, b: Segment :: Outmatches(a, b) && Outmatches(b, a)
  {
    var s := Segment(Distal, Some(0), Some(0), 0, [], [], [], [], [], [], [], false, false);
    var a := s.(activeSynapses := [0, 1], connectedSynapses := [0, 1]);
    var b := s.(activeSynapses := [0, 1, 2], connectedSynapses := [0]);
    assert Outmatches(a, b) && Outmatches(b, a);
  }
}
