/** The object graph of the engine as an index arena: every cell, segment,
    synapse, column, cell matrix and layer lives in one sequence of `Net` and
    is referred to by its position there. The source's object references
    become these integer handles; a `null` reference becomes `None`. */
module Arena {
  import opened Base

  /** The source's global constants `PROXIMAL = 0`, `DISTAL = 1`, `APICAL = 2`. */
  datatype SegmentType = Proximal | Distal | Apical

  /** The layer kind stored by the `Layer` constructor; only stored, never read. */
  datatype LayerType = TmLayer | TpLayer

  /** The configuration options the modelled code reads. Percentages are
      integers in 0..100. */
  datatype Params = Params(
    columnCount: nat,
    cellsPerColumn: nat,
    activationThreshold: nat,
    initialPermanence: nat,
    connectedPermanence: nat,
    minThreshold: nat,
    maxNewSynapseCount: nat,
    permanenceIncrement: nat,
    permanenceDecrement: nat,
    predictedSegmentDecrement: nat,
    maxSegmentsPerCell: nat,
    maxSynapsesPerSegment: nat,
    potentialPercent: nat,
    sparsity: nat,
    inputCellCount: nat,
    skipSpatialPooling: bool,
    historyLength: nat)

  /** The controller's `defaultParams`. */
  const DefaultParams := Params(2048, 32, 13, 21, 50, 10, 32, 10, 10, 1, 128, 128, 50, 2, 1024, false, 2)

  /** A weighted edge from a transmitting cell's axon to a segment. */
  datatype Synapse = Synapse(cellTx: nat, segment: nat, permanence: int)

  /** A dendrite segment. `cellRx` is `None` for a column's proximal segment. */
  datatype Segment = Segment(
    kind: SegmentType,
    cellRx: Option<nat>,
    column: Option<nat>,
    lastUsedTimestep: int,
    synapses: seq<nat>,
    activeSynapses: seq<nat>,
    connectedSynapses: seq<nat>,
    predictedActiveSynapses: seq<nat>,
    activeSynapsesHistory: seq<seq<nat>>,
    connectedSynapsesHistory: seq<seq<nat>>,
    predictedActiveSynapsesHistory: seq<seq<nat>>,
    active: bool,
    learning: bool)

  datatype Cell = Cell(
    matrix: nat,
    index: nat,
    x: nat,
    y: nat,
    column: Option<nat>,
    axonSynapses: seq<nat>,
    proximalSegments: seq<nat>,
    distalSegments: seq<nat>,
    apicalSegments: seq<nat>,
    distalLearnSegment: Option<nat>,
    apicalLearnSegment: Option<nat>,
    active: bool,
    predictedActive: bool,
    predictive: bool,
    learning: bool)

  /** `score` starts as the source's `null`, which its `++` and `<` read as 0. */
  datatype Column = Column(
    index: nat,
    layer: nat,
    overlapActive: int,
    overlapPredictedActive: int,
    score: Option<int>,
    persistence: int,
    initialPersistence: int,
    lastUsedTimestep: int,
    cells: seq<nat>,
    proximalSegment: nat,
    bestDistalSegment: Option<nat>,
    bestDistalSegmentHistory: seq<Option<nat>>,
    bestApicalSegment: Option<nat>,
    bestApicalSegmentHistory: seq<Option<nat>>)

  /** A cell population: the current active, learning and predictive cells,
      and newest-first histories of each. */
  datatype CellMatrix = CellMatrix(
    params: Params,
    cells: seq<nat>,
    activeCells: seq<nat>,
    learningCells: seq<nat>,
    predictiveCells: seq<nat>,
    activeCellHistory: seq<seq<nat>>,
    learningCellHistory: seq<seq<nat>>,
    predictiveCellHistory: seq<seq<nat>>)

  datatype Layer = Layer(
    params: Params,
    kind: LayerType,
    columns: seq<nat>,
    activeColumns: seq<nat>,
    proximalInputs: seq<nat>,
    distalInput: Option<nat>,
    apicalInput: Option<nat>,
    cellMatrix: nat,
    timestep: int)

  /** The whole engine state; `timestep` is the controller's step counter. */
  datatype Net = Net(
    cells: seq<Cell>,
    segments: seq<Segment>,
    synapses: seq<Synapse>,
    columns: seq<Column>,
    matrices: seq<CellMatrix>,
    layers: seq<Layer>,
    timestep: int)

  /** How a controller call ends: normally, or with the `TypeError` the
      source throws; either way with the state reached by then. */
  datatype Outcome = Returned(net: Net) | Threw(net: Net)

  /** How the source reads a possibly-null score. */
  function ScoreValue(c: Column): int
  {
    match c.score
    case None => 0
    case Some(v) => v
  }

  /** The list of the cell's segments of the given kind (`else` branch: proximal). */
  function SegmentsOfKind(c: Cell, kind: SegmentType): seq<nat>
  {
    match kind
    case Distal => c.distalSegments
    case Apical => c.apicalSegments
    case Proximal => c.proximalSegments
  }

  // Single-element updates of the arena.

  function SetCell(n: Net, i: nat, c: Cell): Net
    requires i < |n.cells|
  {
    n.(cells := n.cells[i := c])
  }

  function SetSegment(n: Net, i: nat, s: Segment): Net
    requires i < |n.segments|
  {
    n.(segments := n.segments[i := s])
  }

  function SetSynapse(n: Net, i: nat, s: Synapse): Net
    requires i < |n.synapses|
  {
    n.(synapses := n.synapses[i := s])
  }

  function SetColumn(n: Net, i: nat, c: Column): Net
    requires i < |n.columns|
  {
    n.(columns := n.columns[i := c])
  }

  function SetMatrix(n: Net, i: nat, m: CellMatrix): Net
    requires i < |n.matrices|
  {
    n.(matrices := n.matrices[i := m])
  }

  function SetLayer(n: Net, i: nat, l: Layer): Net
    requires i < |n.layers|
  {
    n.(layers := n.layers[i := l])
  }

  // Permanences.

  /** Every permanence lies in 0..100. */
  predicate PermanencesInRange(n: Net)
  {
    forall i :: 0 <= i < |n.synapses| ==> 0 <= n.synapses[i].permanence <= 100
  }

  /** `p += inc; if (p > 100) p = 100;` */
  function Reinforce(p: int, inc: nat): (r: int)
    ensures 0 <= p <= 100 ==> p <= r <= 100
    ensures r < 100 ==> r == p + inc
  {
    if p + inc > 100 then 100 else p + inc
  }

  /** `p -= dec; if (p < 0) p = 0;` */
  function Degrade(p: int, dec: nat): (r: int)
    ensures 0 <= p <= 100 ==> 0 <= r <= p
    ensures r > 0 ==> r == p - dec
  {
    if p - dec < 0 then 0 else p - dec
  }

  /** Replaces one synapse's permanence; out-of-range handles change nothing. */
  function SetPermanence(n: Net, sid: nat, p: int): (r: Net)
    ensures |r.synapses| == |n.synapses|
    ensures r.cells == n.cells && r.segments == n.segments && r.columns == n.columns
    ensures r.matrices == n.matrices && r.layers == n.layers && r.timestep == n.timestep
    ensures forall i :: 0 <= i < |n.synapses| && i != sid ==> r.synapses[i] == n.synapses[i]
    ensures sid < |n.synapses| ==> r.synapses[sid] == n.synapses[sid].(permanence := p)
    ensures PermanencesInRange(n) && 0 <= p <= 100 ==> PermanencesInRange(r)
  {
    if sid < |n.synapses| then SetSynapse(n, sid, n.synapses[sid].(permanence := p)) else n
  }

  // Handles in range.

  /** The sizes of the six stores, against which handles are checked. */
  datatype Sizes = Sizes(cells: nat, segments: nat, synapses: nat, columns: nat, matrices: nat, layers: nat)

  function SizesOf(n: Net): Sizes
  {
    Sizes(|n.cells|, |n.segments|, |n.synapses|, |n.columns|, |n.matrices|, |n.layers|)
  }

  predicate Grown(a: Sizes, b: Sizes)
  {
    a.cells <= b.cells && a.segments <= b.segments && a.synapses <= b.synapses
    && a.columns <= b.columns && a.matrices <= b.matrices && a.layers <= b.layers
  }

  predicate IdsBelow(s: seq<nat>, bound: nat)
  {
    forall i :: 0 <= i < |s| ==> s[i] < bound
  }

  predicate OptBelow(o: Option<nat>, bound: nat)
  {
    o.None? || o.value < bound
  }

  predicate HistoryBelow(h: seq<seq<nat>>, bound: nat)
  {
    forall i :: 0 <= i < |h| ==> IdsBelow(h[i], bound)
  }

  predicate OptHistoryBelow(h: seq<Option<nat>>, bound: nat)
  {
    forall i :: 0 <= i < |h| ==> OptBelow(h[i], bound)
  }

  predicate SynapseOk(s: Synapse, z: Sizes)
  {
    s.cellTx < z.cells && s.segment < z.segments
  }

  predicate SegmentOk(s: Segment, z: Sizes)
  {
    && OptBelow(s.cellRx, z.cells) && OptBelow(s.column, z.columns)
    && IdsBelow(s.synapses, z.synapses) && IdsBelow(s.activeSynapses, z.synapses)
    && IdsBelow(s.connectedSynapses, z.synapses) && IdsBelow(s.predictedActiveSynapses, z.synapses)
    && HistoryBelow(s.activeSynapsesHistory, z.synapses)
    && HistoryBelow(s.connectedSynapsesHistory, z.synapses)
    && HistoryBelow(s.predictedActiveSynapsesHistory, z.synapses)
  }

  predicate CellOk(c: Cell, z: Sizes)
  {
    && c.matrix < z.matrices && OptBelow(c.column, z.columns)
    && IdsBelow(c.axonSynapses, z.synapses)
    && IdsBelow(c.proximalSegments, z.segments) && IdsBelow(c.distalSegments, z.segments)
    && IdsBelow(c.apicalSegments, z.segments)
    && OptBelow(c.distalLearnSegment, z.segments) && OptBelow(c.apicalLearnSegment, z.segments)
  }

  predicate ColumnOk(c: Column, z: Sizes)
  {
    && c.layer < z.layers && IdsBelow(c.cells, z.cells) && c.proximalSegment < z.segments
    && OptBelow(c.bestDistalSegment, z.segments) && OptHistoryBelow(c.bestDistalSegmentHistory, z.segments)
    && OptBelow(c.bestApicalSegment, z.segments) && OptHistoryBelow(c.bestApicalSegmentHistory, z.segments)
  }

  predicate MatrixOk(m: CellMatrix, z: Sizes)
  {
    && IdsBelow(m.cells, z.cells) && IdsBelow(m.activeCells, z.cells)
    && IdsBelow(m.learningCells, z.cells) && IdsBelow(m.predictiveCells, z.cells)
    && HistoryBelow(m.activeCellHistory, z.cells) && HistoryBelow(m.learningCellHistory, z.cells)
    && HistoryBelow(m.predictiveCellHistory, z.cells)
  }

  predicate LayerOk(l: Layer, z: Sizes)
  {
    && IdsBelow(l.columns, z.columns) && IdsBelow(l.activeColumns, z.columns)
    && IdsBelow(l.proximalInputs, z.matrices)
    && OptBelow(l.distalInput, z.matrices) && OptBelow(l.apicalInput, z.matrices)
    && l.cellMatrix < z.matrices
  }

  /** Every handle stored anywhere in the net names an existing entity. */
  predicate HandlesValid(n: Net)
  {
    var z := SizesOf(n);
    && (forall i :: 0 <= i < |n.synapses| ==> SynapseOk(n.synapses[i], z))
    && (forall i :: 0 <= i < |n.segments| ==> SegmentOk(n.segments[i], z))
    && (forall i :: 0 <= i < |n.cells| ==> CellOk(n.cells[i], z))
    && (forall i :: 0 <= i < |n.columns| ==> ColumnOk(n.columns[i], z))
    && (forall i :: 0 <= i < |n.matrices| ==> MatrixOk(n.matrices[i], z))
    && (forall i :: 0 <= i < |n.layers| ==> LayerOk(n.layers[i], z))
  }

  /** The back-references the constructors maintain: a synapse is listed on
      its segment and on its transmitting cell's axon, a segment with a
      receiving cell is listed on that cell under its kind, and a cell is
      listed in its matrix. */
  predicate Registered(n: Net)
  {
    && (forall i :: 0 <= i < |n.synapses| ==>
          && n.synapses[i].segment < |n.segments|
          && n.synapses[i].cellTx < |n.cells|
          && i in n.segments[n.synapses[i].segment].synapses
          && i in n.cells[n.synapses[i].cellTx].axonSynapses)
    && (forall i :: 0 <= i < |n.segments| && n.segments[i].cellRx.Some? ==>
          && n.segments[i].cellRx.value < |n.cells|
          && i in SegmentsOfKind(n.cells[n.segments[i].cellRx.value], n.segments[i].kind))
    && (forall i :: 0 <= i < |n.cells| ==>
          && n.cells[i].matrix < |n.matrices|
          && i in n.matrices[n.cells[i].matrix].cells)
  }

  /** The structural invariant of a net built by the constructors. */
  predicate WellFormed(n: Net)
  {
    HandlesValid(n) && Registered(n)
  }

  /** Two nets with the same entities and the same back-references: only
      state fields (flags, lists of current activity, scores) may differ. */
  predicate LinksKept(n: Net, r: Net)
  {
    && r.synapses == n.synapses
    && |r.segments| == |n.segments| && |r.cells| == |n.cells| && |r.matrices| == |n.matrices|
    && (forall i :: 0 <= i < |n.segments| ==>
          && r.segments[i].kind == n.segments[i].kind && r.segments[i].cellRx == n.segments[i].cellRx
          && r.segments[i].synapses == n.segments[i].synapses)
    && (forall i :: 0 <= i < |n.cells| ==>
          && r.cells[i].matrix == n.cells[i].matrix && r.cells[i].axonSynapses == n.cells[i].axonSynapses
          && r.cells[i].proximalSegments == n.cells[i].proximalSegments
          && r.cells[i].distalSegments == n.cells[i].distalSegments
          && r.cells[i].apicalSegments == n.cells[i].apicalSegments)
    && (forall i :: 0 <= i < |n.matrices| ==> r.matrices[i].cells == n.matrices[i].cells)
  }

  lemma LinksRegistered(n: Net, r: Net)
    requires LinksKept(n, r) && Registered(n)
    ensures Registered(r)
  {
    forall i | 0 <= i < |r.segments| && r.segments[i].cellRx.Some?
      ensures i in SegmentsOfKind(r.cells[r.segments[i].cellRx.value], r.segments[i].kind)
    {
      var c := n.segments[i].cellRx.value;
      assert SegmentsOfKind(r.cells[c], n.segments[i].kind) == SegmentsOfKind(n.cells[c], n.segments[i].kind);
    }
  }

  lemma OkGrows(z: Sizes, z': Sizes)
    requires Grown(z, z')
    ensures forall s :: SynapseOk(s, z) ==> SynapseOk(s, z')
    ensures forall s :: SegmentOk(s, z) ==> SegmentOk(s, z')
    ensures forall c :: CellOk(c, z) ==> CellOk(c, z')
    ensures forall c :: ColumnOk(c, z) ==> ColumnOk(c, z')
    ensures forall m :: MatrixOk(m, z) ==> MatrixOk(m, z')
    ensures forall l :: LayerOk(l, z) ==> LayerOk(l, z')
  {
  }

  /** The empty net the controller starts from. */
  const EmptyNet := Net([], [], [], [], [], [], 0)

  lemma EmptyNetWellFormed()
    ensures WellFormed(EmptyNet)
  {
  }
}
