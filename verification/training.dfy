/** Learning on distal and apical segments: `trainSegment`
    (htm.controller.js lines 521-594) reinforces a segment's active
    synapses, degrades the rest and grows new synapses to a sample of the
    active cells; `trainCellMatrix` (lines 408-514) decides, cell by cell,
    which segment to reinforce, punish or create. Neither touches a column,
    a matrix or a layer. */
module Training {
  import opened Base
  import opened Arena
  import opened Sampling
  import opened Construct
  import opened Activation

  // What training may change.

  /** A cell only gains segments and axon synapses, and may lose its
      learning flag. */
  predicate CellGrown(a: Cell, b: Cell)
  {
    && b == a.(axonSynapses := b.axonSynapses, proximalSegments := b.proximalSegments,
               distalSegments := b.distalSegments, apicalSegments := b.apicalSegments,
               learning := b.learning)
    && a.axonSynapses <= b.axonSynapses && a.proximalSegments <= b.proximalSegments
    && a.distalSegments <= b.distalSegments && a.apicalSegments <= b.apicalSegments
    && (b.learning ==> a.learning)
  }

  /** A segment only gains synapses. */
  predicate SegmentGrown(a: Segment, b: Segment)
  {
    b == a.(synapses := b.synapses) && a.synapses <= b.synapses
  }

  /** Everything training may do to a net: append segments and synapses,
      change permanences, let cells and segments grow and clear learning
      flags. Columns, matrices, layers and the timestep stay as they are. */
  predicate TrainingFrame(n: Net, r: Net)
  {
    && |r.cells| == |n.cells| && |n.segments| <= |r.segments| && |n.synapses| <= |r.synapses|
    && r.columns == n.columns && r.matrices == n.matrices && r.layers == n.layers
    && r.timestep == n.timestep
    && (forall i :: 0 <= i < |n.cells| ==> CellGrown(n.cells[i], r.cells[i]))
    && (forall i :: 0 <= i < |n.segments| ==> SegmentGrown(n.segments[i], r.segments[i]))
    && (forall i :: 0 <= i < |n.synapses| ==>
          r.synapses[i] == n.synapses[i].(permanence := r.synapses[i].permanence))
  }

  /** No segment holds more than `max` synapses. */
  predicate SegmentsWithin(n: Net, max: nat)
  {
    forall i :: 0 <= i < |n.segments| ==> |n.segments[i].synapses| <= max
  }

  /** The parameters never let a fresh segment start beyond the per-segment
      cap: the cap admits a synapse and a batch of new synapses fits. */
  predicate GrowthBounded(p: Params)
  {
    1 <= p.maxSynapsesPerSegment && p.maxNewSynapseCount <= p.maxSynapsesPerSegment
  }

  /** What a run of training steps with parameters `p` keeps: the frame, a
      well-formed net, permanences in 0..100 when new synapses start in
      range, and the per-segment synapse cap. */
  predicate TrainKeeps(n: Net, r: Net, p: Params)
  {
    && TrainingFrame(n, r)
    && (WellFormed(n) ==> WellFormed(r))
    && (PermanencesInRange(n) && p.initialPermanence <= 100 ==> PermanencesInRange(r))
    && (GrowthBounded(p) && SegmentsWithin(n, p.maxSynapsesPerSegment) ==>
          SegmentsWithin(r, p.maxSynapsesPerSegment))
  }

  // Permanence updates.

  /** The decrement loops of lines 449-455 and 552-558: each listed synapse
      loses `dec`, clipped at 0. A handle that names no synapse is skipped. */
  function DegradeAll(n: Net, syns: seq<nat>, dec: nat): (r: Net)
    ensures SizesOf(r) == SizesOf(n)
    decreases |syns|
  {
    if syns == [] then n
    else
      var n1 :=
        if syns[0] < |n.synapses| then SetPermanence(n, syns[0], Degrade(n.synapses[syns[0]].permanence, dec))
        else n;
      DegradeAll(n1, syns[1..], dec)
  }

  /** The `.index` of the cell a handle names. */
  function CellIndex(cells: seq<Cell>, c: nat): Option<nat>
  {
    if c < |cells| then Some(cells[c].index) else None
  }

  /** The `.index` of the active cell at sampled position `pick`. */
  function Sampled(cells: seq<Cell>, activeCells: seq<nat>, pick: nat): Option<nat>
  {
    if pick < |activeCells| then CellIndex(cells, activeCells[pick]) else None
  }

  /** The inner search of lines 534-540: the first sampled position whose
      cell carries `index`, or `|picks|` when there is none. */
  function FirstSampled(cells: seq<Cell>, activeCells: seq<nat>, picks: seq<nat>, index: nat): (r: nat)
    ensures r <= |picks|
    ensures r < |picks| ==> Sampled(cells, activeCells, picks[r]) == Some(index)
    ensures forall a :: 0 <= a < r ==> Sampled(cells, activeCells, picks[a]) != Some(index)
    decreases |picks|
  {
    if picks == [] then 0
    else if Sampled(cells, activeCells, picks[0]) == Some(index) then 0
    else 1 + FirstSampled(cells, activeCells, picks[1..], index)
  }

  /** `list.splice(i, 1)`, which removes nothing when `i` is past the end. */
  function DropAt(s: seq<nat>, i: nat): (r: seq<nat>)
    ensures multiset(r) <= multiset(s)
  {
    if i < |s| then
      RemoveAtMultiset(s, i);
      RemoveAt(s, i)
    else s
  }

  /** The search-and-splice of lines 542-548: the first occurrence of `x`
      removed. */
  function Without(s: seq<nat>, x: nat): (r: seq<nat>)
    ensures multiset(r) == multiset(s) - multiset{x}
    decreases |s|
  {
    if s == [] then []
    else if s[0] == x then
      assert s == [s[0]] + s[1..];
      s[1..]
    else
      assert s == [s[0]] + s[1..];
      [s[0]] + Without(s[1..], x)
  }

  /** What the reinforcement loop leaves behind: the net, the sampled
      positions still to connect and the synapses still to degrade. */
  datatype Enforced = Enforced(net: Net, picks: seq<nat>, inactive: seq<nat>)

  /** The reinforcement loop of lines 526-550 over the segment's previously
      active synapses: each is reinforced, clipped at 100, its transmitting
      cell is taken out of the sample, and the synapse is taken off the list
      still to degrade. A handle that names no synapse is skipped. */
  function Enforce(n: Net, activeCells: seq<nat>, hist: seq<nat>, picks: seq<nat>, inactive: seq<nat>, inc: nat): (r: Enforced)
    ensures SizesOf(r.net) == SizesOf(n)
    decreases |hist|
  {
    if hist == [] then Enforced(n, picks, inactive)
    else if hist[0] >= |n.synapses| then Enforce(n, activeCells, hist[1..], picks, inactive, inc)
    else
      var syn := n.synapses[hist[0]];
      var n1 := SetPermanence(n, hist[0], Reinforce(syn.permanence, inc));
      var picks1 :=
        match CellIndex(n.cells, syn.cellTx)
        case None => picks
        case Some(ix) => DropAt(picks, FirstSampled(n.cells, activeCells, picks, ix));
      Enforce(n1, activeCells, hist[1..], picks1, Without(inactive, hist[0]), inc)
  }

  // Growth.

  /** `segment.lastUsedTimestep = t`. */
  function Stamp(n: Net, k: nat, t: int): (r: Net)
    requires k < |n.segments|
    ensures SizesOf(r) == SizesOf(n)
  {
    SetSegment(n, k, n.segments[k].(lastUsedTimestep := t))
  }

  /** The last-used timesteps of a list of segments (0 for a handle that
      names none). */
  function Stamps(n: Net, segs: seq<nat>): (r: seq<int>)
    ensures |r| == |segs|
    ensures forall i :: 0 <= i < |segs| ==>
      r[i] == if segs[i] < |n.segments| then n.segments[segs[i]].lastUsedTimestep else 0
  {
    seq(|segs|, i requires 0 <= i < |segs| =>
      if segs[i] < |n.segments| then n.segments[segs[i]].lastUsedTimestep else 0)
  }

  /** Lines 570-586: a random start and the least-recently-used scan of the
      cell's segments. The source discards the index it finds, so the only
      lasting effect is the draw from the random source. */
  function LruChoice(n: Net, segs: seq<nat>, g: Rng): (r: (nat, Rng))
    ensures r.1 == Roll(g, |segs|).1
    ensures |segs| > 0 ==> r.0 < |segs| && FirstMinFrom(Stamps(n, segs), Roll(g, |segs|).0, r.0)
  {
    var (start, g1) := Roll(g, |segs|);
    if |segs| == 0 then (0, g1) else (LeastRecentlyUsed(Stamps(n, segs), start), g1)
  }

  /** `new Segment(kind, cell, cell.column)` followed by
      `segment.lastUsedTimestep = my.timestep` (lines 501-502 and 588-589);
      the new handle is `|n.segments|`. */
  function OpenSegment(n: Net, kind: SegmentType, rx: nat): (r: Net)
    requires rx < |n.cells|
    ensures |r.segments| == |n.segments| + 1 && |r.cells| == |n.cells|
    ensures r.segments[|n.segments|] == FreshSegment(kind, Some(rx), n.cells[rx].column).(lastUsedTimestep := n.timestep)
    ensures r.synapses == n.synapses
  {
    var n1 := NewSegment(n, kind, Some(rx), n.cells[rx].column);
    Stamp(n1, |n.segments|, n.timestep)
  }

  /** One round of the growth loop of lines 568-593: when the current
      segment is full, a random draw (and, on a cell at its segment quota,
      the unused least-recently-used scan) and a fresh segment of the same
      kind on the same cell; then one new synapse to the sampled cell at
      `pick`, which is skipped when the handle names no cell. Returns the
      net, the segment now current and the random source. */
  function GrowOne(n: Net, cur: nat, activeCells: seq<nat>, pick: nat, p: Params, g: Rng): (r: (Net, nat, Rng))
    requires cur < |n.segments| && n.segments[cur].cellRx.Some? && n.segments[cur].cellRx.value < |n.cells|
    ensures |r.0.cells| == |n.cells| && |n.segments| <= |r.0.segments| && |n.synapses| <= |r.0.synapses|
    ensures r.1 < |r.0.segments| && r.0.segments[r.1].cellRx == n.segments[cur].cellRx
  {
    var seg := n.segments[cur];
    var rx := seg.cellRx.value;
    var segs := SegmentsOfKind(n.cells[rx], seg.kind);
    var full := |seg.synapses| >= p.maxSynapsesPerSegment;
    var g1 := if full && |segs| >= p.maxSegmentsPerCell then LruChoice(n, segs, g).1 else g;
    var n1 := if full then OpenSegment(n, seg.kind, rx) else n;
    var cur1 := if full then |n.segments| else cur;
    var n2 :=
      if pick < |activeCells| && activeCells[pick] < |n1.cells| then
        NewSynapse(n1, activeCells[pick], cur1, p.initialPermanence)
      else n1;
    (n2, cur1, g1)
  }

  /** The growth loop of lines 568-593: one new synapse per remaining
      sampled cell, onto the current segment while it has room and onto a
      fresh segment of the same kind on the same cell once it is full. */
  function Grow(n: Net, cur: nat, activeCells: seq<nat>, picks: seq<nat>, p: Params, g: Rng): (r: (Net, Rng))
    requires cur < |n.segments| && n.segments[cur].cellRx.Some? && n.segments[cur].cellRx.value < |n.cells|
    ensures |r.0.cells| == |n.cells| && |n.segments| <= |r.0.segments| && |n.synapses| <= |r.0.synapses|
    decreases |picks|
  {
    if picks == [] then (n, g)
    else
      var (n2, cur1, g1) := GrowOne(n, cur, activeCells, picks[0], p, g);
      Grow(n2, cur1, activeCells, picks[1..], p, g1)
  }

  /** `trainSegment(segment, activeCells, params)` on segment `s`. A handle
      that names no segment changes nothing. A segment without a receiving
      cell, which the training loops never pick, is reinforced and degraded
      and the call returns, where line 561 would throw. */
  function TrainSegment(n: Net, s: nat, activeCells: seq<nat>, p: Params, g: Rng): (r: (Net, Rng))
    ensures |r.0.cells| == |n.cells| && |n.segments| <= |r.0.segments| && |n.synapses| <= |r.0.synapses|
  {
    if s >= |n.segments| then (n, g)
    else
      var (picks, g1) := RandomIndexes(|activeCells|, p.maxNewSynapseCount, false, g);
      var seg := n.segments[s];
      var hist := if |seg.activeSynapsesHistory| > 0 then seg.activeSynapsesHistory[0] else [];
      var e := Enforce(n, activeCells, hist, picks, seg.synapses, p.permanenceIncrement);
      var n2 := DegradeAll(e.net, e.inactive, p.permanenceDecrement);
      if seg.cellRx.None? || seg.cellRx.value >= |n.cells| then (n2, g1)
      else
        assert n2.segments == n.segments by { EnforceSegments(n, activeCells, hist, picks, seg.synapses, p.permanenceIncrement); DegradeAllSegments(e.net, e.inactive, p.permanenceDecrement); }
        Grow(n2, s, activeCells, e.picks, p, g1)
  }

  lemma {:induction false} EnforceSegments(n: Net, activeCells: seq<nat>, hist: seq<nat>, picks: seq<nat>, inactive: seq<nat>, inc: nat)
    ensures var r := Enforce(n, activeCells, hist, picks, inactive, inc).net;
      r.segments == n.segments && r.cells == n.cells && r.timestep == n.timestep
    decreases |hist|
  {
    if hist != [] {
      if hist[0] >= |n.synapses| {
        EnforceSegments(n, activeCells, hist[1..], picks, inactive, inc);
      } else {
        var syn := n.synapses[hist[0]];
        var n1 := SetPermanence(n, hist[0], Reinforce(syn.permanence, inc));
        var picks1 :=
          match CellIndex(n.cells, syn.cellTx)
          case None => picks
          case Some(ix) => DropAt(picks, FirstSampled(n.cells, activeCells, picks, ix));
        EnforceSegments(n1, activeCells, hist[1..], picks1, Without(inactive, hist[0]), inc);
      }
    }
  }

  lemma {:induction false} DegradeAllSegments(n: Net, syns: seq<nat>, dec: nat)
    ensures var r := DegradeAll(n, syns, dec);
      r.segments == n.segments && r.cells == n.cells && r.timestep == n.timestep
    decreases |syns|
  {
    if syns != [] {
      var n1 :=
        if syns[0] < |n.synapses| then SetPermanence(n, syns[0], Degrade(n.synapses[syns[0]].permanence, dec))
        else n;
      DegradeAllSegments(n1, syns[1..], dec);
    }
  }

  // Training a cell matrix.

  /** `cell.learning = false`. */
  function Unlearn(n: Net, c: nat): (r: Net)
    requires c < |n.cells|
    ensures SizesOf(r) == SizesOf(n)
    ensures !r.cells[c].learning
  {
    SetCell(n, c, n.cells[c].(learning := false))
  }

  /** A column's best-segment history for a kind (none for proximal). */
  function BestHistoryOf(c: Column, kind: SegmentType): seq<Option<nat>>
  {
    match kind
    case Distal => c.bestDistalSegmentHistory
    case Apical => c.bestApicalSegmentHistory
    case Proximal => []
  }

  /** The segment lines 414-439 (and 464-491) settle on for cell `c`: for a
      cell in a column, the column's previous best segment of the kind,
      provided it belongs to `c`; for an input cell, its learn segment of
      the kind. */
  function ChosenSegment(n: Net, c: nat, kind: SegmentType): (r: Option<nat>)
    requires c < |n.cells|
    ensures r.Some? && n.cells[c].column.Some? ==>
      && kind != Proximal && r.value < |n.segments| && n.segments[r.value].cellRx == Some(c)
    ensures n.cells[c].column.None? ==> r == LearnSegmentOf(n.cells[c], kind)
  {
    var cell := n.cells[c];
    match cell.column
    case None => LearnSegmentOf(cell, kind)
    case Some(col) =>
      if col >= |n.columns| then None
      else
        var h := BestHistoryOf(n.columns[col], kind);
        if kind != Proximal && |h| > 0 && h[0].Some? && h[0].value < |n.segments|
           && n.segments[h[0].value].cellRx == Some(c)
        then h[0]
        else None
  }

  /** The segment was active in the previous step: its newest active-synapse
      history entry exists and is not empty. */
  predicate Matched(n: Net, s: nat)
  {
    s < |n.segments| && |n.segments[s].activeSynapsesHistory| > 0
    && |n.segments[s].activeSynapsesHistory[0]| > 0
  }

  /** One cell of the first loop (lines 413-459): a matched segment of an
      active cell is trained, a matched segment of a cell that did not
      become active is punished, and the cell stops learning. A handle that
      names no cell is skipped. */
  function JudgeCell(n: Net, c: nat, activeCells: seq<nat>, p: Params, kind: SegmentType, g: Rng): (r: (Net, Rng))
    ensures |r.0.cells| == |n.cells|
  {
    if c >= |n.cells| then (n, g)
    else
      var seg := ChosenSegment(n, c, kind);
      var (n1, g1) :=
        if seg.Some? && Matched(n, seg.value) then
          if n.cells[c].active then TrainSegment(n, seg.value, activeCells, p, g)
          else (DegradeAll(n, n.segments[seg.value].synapses, p.predictedSegmentDecrement), g)
        else (n, g);
      (Unlearn(n1, c), g1)
  }

  function JudgeCells(n: Net, list: seq<nat>, activeCells: seq<nat>, p: Params, kind: SegmentType, g: Rng): (r: (Net, Rng))
    ensures |r.0.cells| == |n.cells|
    decreases |list|
  {
    if list == [] then (n, g)
    else
      var (n1, g1) := JudgeCell(n, list[0], activeCells, p, kind, g);
      JudgeCells(n1, list[1..], activeCells, p, kind, g1)
  }

  /** Lines 500-503: one new synapse to the sampled learning cell at each
      picked position; a handle that names no cell is skipped. */
  function Connect(n: Net, k: nat, sample: seq<nat>, picks: seq<nat>, permanence: int): (r: Net)
    requires k < |n.segments|
    ensures |r.cells| == |n.cells| && |r.segments| == |n.segments|
    decreases |picks|
  {
    if picks == [] then n
    else
      var n1 :=
        if picks[0] < |sample| && sample[picks[0]] < |n.cells| then NewSynapse(n, sample[picks[0]], k, permanence)
        else n;
      Connect(n1, k, sample, picks[1..], permanence)
  }

  /** Lines 495-503: a fresh segment on cell `c`, connected to a random
      sample of at most `maxNewSynapseCount` of the transmitting matrix's
      previous learning cells. */
  function NewLearnSegment(n: Net, c: nat, kind: SegmentType, sample: seq<nat>, p: Params, g: Rng): (r: (Net, Rng))
    requires c < |n.cells|
    ensures |r.0.cells| == |n.cells|
  {
    var n1 := OpenSegment(n, kind, c);
    var (picks, g1) := RandomIndexes(|sample|, p.maxNewSynapseCount, false, g);
    (Connect(n1, |n.segments|, sample, picks, p.initialPermanence), g1)
  }

  /** One cell of the second loop (lines 463-510): a cell still flagged for
      learning trains its matched segment or gets a new one, and stops
      learning. */
  function LearnCell(n: Net, c: nat, activeCells: seq<nat>, sample: seq<nat>, p: Params, kind: SegmentType, g: Rng): (r: (Net, Rng))
    ensures |r.0.cells| == |n.cells|
  {
    if c >= |n.cells| || !n.cells[c].learning then (n, g)
    else
      var seg := ChosenSegment(n, c, kind);
      var (n1, g1) :=
        if seg.Some? && Matched(n, seg.value) then TrainSegment(n, seg.value, activeCells, p, g)
        else NewLearnSegment(n, c, kind, sample, p, g);
      (Unlearn(n1, c), g1)
  }

  function LearnCells(n: Net, list: seq<nat>, activeCells: seq<nat>, sample: seq<nat>, p: Params, kind: SegmentType, g: Rng): (r: (Net, Rng))
    ensures |r.0.cells| == |n.cells|
    decreases |list|
  {
    if list == [] then (n, g)
    else
      var (n1, g1) := LearnCell(n, list[0], activeCells, sample, p, kind, g);
      LearnCells(n1, list[1..], activeCells, sample, p, kind, g1)
  }

  /** `trainCellMatrix(cellMatrixTx, cellMatrixRx, inputType)` on the
      matrices with handles `tx` and `rx`. It does nothing unless the
      transmitting matrix has an active-cell history and the receiving
      matrix a predictive-cell history. */
  function TrainCellMatrix(n: Net, tx: nat, rx: nat, kind: SegmentType, g: Rng): (r: (Net, Rng))
    ensures (tx < |n.matrices| && rx < |n.matrices|
             && (|n.matrices[tx].activeCellHistory| == 0 || |n.matrices[rx].predictiveCellHistory| == 0))
            ==> r == (n, g)
  {
    if tx >= |n.matrices| || rx >= |n.matrices| then (n, g)
    else
      var Tx := n.matrices[tx];
      var Rx := n.matrices[rx];
      if |Tx.activeCellHistory| == 0 || |Rx.predictiveCellHistory| == 0 then (n, g)
      else
        var (n1, g1) := JudgeCells(n, Rx.predictiveCellHistory[0], Tx.activeCellHistory[0], Rx.params, kind, g);
        if |Rx.learningCellHistory| == 0 || |Rx.learningCellHistory[0]| == 0 then (n1, g1)
        else
          var sample := if |Tx.learningCellHistory| > 0 then Tx.learningCellHistory[0] else [];
          LearnCells(n1, Rx.learningCells, Tx.activeCellHistory[0], sample, Rx.params, kind, g1)
  }

  // Each step keeps the invariants.

  lemma TrainKeepsTrans(a: Net, b: Net, c: Net, p: Params)
    requires TrainKeeps(a, b, p) && TrainKeeps(b, c, p)
    ensures TrainKeeps(a, c, p)
  {
    TrainingFrameTrans(a, b, c);
  }

  lemma TrainingFrameTrans(a: Net, b: Net, c: Net)
    requires TrainingFrame(a, b) && TrainingFrame(b, c)
    ensures TrainingFrame(a, c)
  {
    forall i | 0 <= i < |a.cells| ensures CellGrown(a.cells[i], c.cells[i]) {
      assert CellGrown(b.cells[i], c.cells[i]);
    }
    forall i | 0 <= i < |a.segments| ensures SegmentGrown(a.segments[i], c.segments[i]) {
      assert SegmentGrown(b.segments[i], c.segments[i]);
    }
  }

  lemma TrainKeepsRefl(n: Net, p: Params)
    ensures TrainKeeps(n, n, p)
  {
  }

  /** Changing one permanence to a value in range keeps everything. */
  lemma PermanenceKeeps(n: Net, sid: nat, v: int, p: Params)
    requires sid < |n.synapses|
    requires PermanencesInRange(n) ==> 0 <= v <= 100
    ensures TrainKeeps(n, SetPermanence(n, sid, v), p)
  {
    if WellFormed(n) {
      PermanenceHandles(n, sid, v);
      PermanenceRegistered(n, sid, v);
    }
  }

  lemma PermanenceHandles(n: Net, sid: nat, v: int)
    requires sid < |n.synapses| && HandlesValid(n)
    ensures HandlesValid(SetPermanence(n, sid, v))
  {
    var r := SetPermanence(n, sid, v);
    var z := SizesOf(n);
    assert SizesOf(r) == z;
    forall i | 0 <= i < |r.synapses| ensures SynapseOk(r.synapses[i], z) {
      assert SynapseOk(n.synapses[i], z);
    }
  }

  lemma PermanenceRegistered(n: Net, sid: nat, v: int)
    requires sid < |n.synapses| && Registered(n)
    ensures Registered(SetPermanence(n, sid, v))
  {
    var r := SetPermanence(n, sid, v);
    forall i | 0 <= i < |r.synapses|
      ensures r.synapses[i].segment == n.synapses[i].segment && r.synapses[i].cellTx == n.synapses[i].cellTx
    {
    }
  }

  lemma {:induction false} DegradeAllKeeps(n: Net, syns: seq<nat>, dec: nat, p: Params)
    ensures TrainKeeps(n, DegradeAll(n, syns, dec), p)
    decreases |syns|
  {
    if syns == [] {
      TrainKeepsRefl(n, p);
    } else {
      var n1 := n;
      if syns[0] < |n.synapses| {
        n1 := SetPermanence(n, syns[0], Degrade(n.synapses[syns[0]].permanence, dec));
        PermanenceKeeps(n, syns[0], Degrade(n.synapses[syns[0]].permanence, dec), p);
      } else {
        TrainKeepsRefl(n, p);
      }
      DegradeAllKeeps(n1, syns[1..], dec, p);
      TrainKeepsTrans(n, n1, DegradeAll(n1, syns[1..], dec), p);
    }
  }

  lemma {:induction false} EnforceKeeps(n: Net, activeCells: seq<nat>, hist: seq<nat>, picks: seq<nat>, inactive: seq<nat>, inc: nat, p: Params)
    ensures TrainKeeps(n, Enforce(n, activeCells, hist, picks, inactive, inc).net, p)
    decreases |hist|
  {
    if hist == [] {
      TrainKeepsRefl(n, p);
    } else if hist[0] >= |n.synapses| {
      EnforceKeeps(n, activeCells, hist[1..], picks, inactive, inc, p);
    } else {
      var syn := n.synapses[hist[0]];
      var n1 := SetPermanence(n, hist[0], Reinforce(syn.permanence, inc));
      var picks1 :=
        match CellIndex(n.cells, syn.cellTx)
        case None => picks
        case Some(ix) => DropAt(picks, FirstSampled(n.cells, activeCells, picks, ix));
      PermanenceKeeps(n, hist[0], Reinforce(syn.permanence, inc), p);
      EnforceKeeps(n1, activeCells, hist[1..], picks1, Without(inactive, hist[0]), inc, p);
      TrainKeepsTrans(n, n1, Enforce(n1, activeCells, hist[1..], picks1, Without(inactive, hist[0]), inc).net, p);
    }
  }

  lemma OpenSegmentKeeps(n: Net, kind: SegmentType, rx: nat, p: Params)
    requires rx < |n.cells|
    ensures TrainKeeps(n, OpenSegment(n, kind, rx), p)
  {
    var n1 := NewSegment(n, kind, Some(rx), n.cells[rx].column);
    var r := OpenSegment(n, kind, rx);
    assert r == Stamp(n1, |n.segments|, n.timestep);
    OpenSegmentFrame(n, kind, rx);
    if WellFormed(n) {
      assert CellOk(n.cells[rx], SizesOf(n));
      NewSegmentWellFormed(n, kind, Some(rx), n.cells[rx].column);
      StampWellFormed(n1, |n.segments|, n.timestep);
    }
  }

  /** Opening a segment keeps every old segment and appends an empty one. */
  lemma OpenSegmentFrame(n: Net, kind: SegmentType, rx: nat)
    requires rx < |n.cells|
    ensures var r := OpenSegment(n, kind, rx);
      && TrainingFrame(n, r)
      && (forall i :: 0 <= i < |n.segments| ==> r.segments[i] == n.segments[i])
  {
    var n1 := NewSegment(n, kind, Some(rx), n.cells[rx].column);
    var r := OpenSegment(n, kind, rx);
    assert r == Stamp(n1, |n.segments|, n.timestep);
    forall i | 0 <= i < |n.segments| ensures r.segments[i] == n.segments[i] {
      assert n1.segments[i] == n.segments[i];
    }
  }

  /** Stamping a segment changes no handle. */
  lemma StampWellFormed(n: Net, k: nat, t: int)
    requires WellFormed(n) && k < |n.segments|
    ensures WellFormed(Stamp(n, k, t))
  {
    var r := Stamp(n, k, t);
    assert LinksKept(n, r);
    LinksRegistered(n, r);
    assert SegmentOk(n.segments[k], SizesOf(n));
    assert forall i :: 0 <= i < |r.segments| ==> SegmentOk(r.segments[i], SizesOf(r));
  }

  /** A new synapse keeps everything, provided its segment has room under
      the cap whenever the cap is in force. */
  lemma NewSynapseKeeps(n: Net, cellTx: nat, seg: nat, p: Params)
    requires cellTx < |n.cells| && seg < |n.segments|
    requires GrowthBounded(p) ==> |n.segments[seg].synapses| < p.maxSynapsesPerSegment
    ensures TrainKeeps(n, NewSynapse(n, cellTx, seg, p.initialPermanence), p)
  {
    if WellFormed(n) {
      NewSynapseWellFormed(n, cellTx, seg, p.initialPermanence);
    }
    NewSynapseFrame(n, cellTx, seg, p.initialPermanence);
    if PermanencesInRange(n) && p.initialPermanence <= 100 {
      NewSynapseInRange(n, cellTx, seg, p.initialPermanence);
    }
  }

  lemma NewSynapseFrame(n: Net, cellTx: nat, seg: nat, permanence: int)
    requires cellTx < |n.cells| && seg < |n.segments|
    ensures TrainingFrame(n, NewSynapse(n, cellTx, seg, permanence))
  {
    var r := NewSynapse(n, cellTx, seg, permanence);
    forall i | 0 <= i < |n.synapses| ensures r.synapses[i] == n.synapses[i] {
      assert r.synapses[..|n.synapses|][i] == n.synapses[i];
    }
    forall i | 0 <= i < |n.cells| ensures CellGrown(n.cells[i], r.cells[i]) {
    }
    forall i | 0 <= i < |n.segments| ensures SegmentGrown(n.segments[i], r.segments[i]) {
    }
  }

  lemma NewSynapseInRange(n: Net, cellTx: nat, seg: nat, permanence: int)
    requires cellTx < |n.cells| && seg < |n.segments|
    requires PermanencesInRange(n) && 0 <= permanence <= 100
    ensures PermanencesInRange(NewSynapse(n, cellTx, seg, permanence))
  {
    var r := NewSynapse(n, cellTx, seg, permanence);
    forall i | 0 <= i < |r.synapses| ensures 0 <= r.synapses[i].permanence <= 100 {
      if i < |n.synapses| {
        assert r.synapses[..|n.synapses|][i] == n.synapses[i];
      }
    }
  }

  lemma GrowOneKeeps(n: Net, cur: nat, activeCells: seq<nat>, pick: nat, p: Params, g: Rng)
    requires cur < |n.segments| && n.segments[cur].cellRx.Some? && n.segments[cur].cellRx.value < |n.cells|
    ensures TrainKeeps(n, GrowOne(n, cur, activeCells, pick, p, g).0, p)
  {
    var seg := n.segments[cur];
    var rx := seg.cellRx.value;
    var full := |seg.synapses| >= p.maxSynapsesPerSegment;
    var n1 := if full then OpenSegment(n, seg.kind, rx) else n;
    var cur1 := if full then |n.segments| else cur;
    if full {
      OpenSegmentKeeps(n, seg.kind, rx, p);
    } else {
      TrainKeepsRefl(n, p);
    }
    if pick < |activeCells| && activeCells[pick] < |n1.cells| {
      NewSynapseKeeps(n1, activeCells[pick], cur1, p);
      TrainKeepsTrans(n, n1, NewSynapse(n1, activeCells[pick], cur1, p.initialPermanence), p);
    }
  }

  lemma {:induction false} GrowKeeps(n: Net, cur: nat, activeCells: seq<nat>, picks: seq<nat>, p: Params, g: Rng)
    requires cur < |n.segments| && n.segments[cur].cellRx.Some? && n.segments[cur].cellRx.value < |n.cells|
    ensures TrainKeeps(n, Grow(n, cur, activeCells, picks, p, g).0, p)
    decreases |picks|
  {
    if picks == [] {
      TrainKeepsRefl(n, p);
    } else {
      var (n2, cur1, g1) := GrowOne(n, cur, activeCells, picks[0], p, g);
      GrowOneKeeps(n, cur, activeCells, picks[0], p, g);
      GrowKeeps(n2, cur1, activeCells, picks[1..], p, g1);
      TrainKeepsTrans(n, n2, Grow(n2, cur1, activeCells, picks[1..], p, g1).0, p);
    }
  }

  lemma TrainSegmentKeeps(n: Net, s: nat, activeCells: seq<nat>, p: Params, g: Rng)
    ensures TrainKeeps(n, TrainSegment(n, s, activeCells, p, g).0, p)
  {
    if s >= |n.segments| {
      TrainKeepsRefl(n, p);
    } else {
      var (picks, g1) := RandomIndexes(|activeCells|, p.maxNewSynapseCount, false, g);
      var seg := n.segments[s];
      var hist := if |seg.activeSynapsesHistory| > 0 then seg.activeSynapsesHistory[0] else [];
      var e := Enforce(n, activeCells, hist, picks, seg.synapses, p.permanenceIncrement);
      var n2 := DegradeAll(e.net, e.inactive, p.permanenceDecrement);
      EnforceKeeps(n, activeCells, hist, picks, seg.synapses, p.permanenceIncrement, p);
      DegradeAllKeeps(e.net, e.inactive, p.permanenceDecrement, p);
      TrainKeepsTrans(n, e.net, n2, p);
      if seg.cellRx.Some? && seg.cellRx.value < |n.cells| {
        EnforceSegments(n, activeCells, hist, picks, seg.synapses, p.permanenceIncrement);
        DegradeAllSegments(e.net, e.inactive, p.permanenceDecrement);
        GrowKeeps(n2, s, activeCells, e.picks, p, g1);
        TrainKeepsTrans(n, n2, Grow(n2, s, activeCells, e.picks, p, g1).0, p);
      }
    }
  }

  lemma UnlearnKeeps(n: Net, c: nat, p: Params)
    requires c < |n.cells|
    ensures TrainKeeps(n, Unlearn(n, c), p)
  {
    var r := Unlearn(n, c);
    UnlearnFrame(n, c);
    if WellFormed(n) {
      UnlearnHandles(n, c);
      assert LinksKept(n, r);
      LinksRegistered(n, r);
    }
  }

  lemma UnlearnFrame(n: Net, c: nat)
    requires c < |n.cells|
    ensures TrainingFrame(n, Unlearn(n, c))
  {
    var r := Unlearn(n, c);
    forall i | 0 <= i < |n.cells| ensures CellGrown(n.cells[i], r.cells[i]) {
    }
  }

  lemma UnlearnHandles(n: Net, c: nat)
    requires c < |n.cells| && HandlesValid(n)
    ensures HandlesValid(Unlearn(n, c))
  {
    var r := Unlearn(n, c);
    var z := SizesOf(n);
    forall i | 0 <= i < |r.cells| ensures CellOk(r.cells[i], z) {
      assert CellOk(n.cells[i], z);
    }
  }

  lemma JudgeCellKeeps(n: Net, c: nat, activeCells: seq<nat>, p: Params, kind: SegmentType, g: Rng)
    ensures TrainKeeps(n, JudgeCell(n, c, activeCells, p, kind, g).0, p)
  {
    if c >= |n.cells| {
      TrainKeepsRefl(n, p);
    } else {
      var seg := ChosenSegment(n, c, kind);
      var n1 := n;
      if seg.Some? && Matched(n, seg.value) {
        if n.cells[c].active {
          n1 := TrainSegment(n, seg.value, activeCells, p, g).0;
          TrainSegmentKeeps(n, seg.value, activeCells, p, g);
        } else {
          n1 := DegradeAll(n, n.segments[seg.value].synapses, p.predictedSegmentDecrement);
          DegradeAllKeeps(n, n.segments[seg.value].synapses, p.predictedSegmentDecrement, p);
        }
      } else {
        TrainKeepsRefl(n, p);
      }
      assert JudgeCell(n, c, activeCells, p, kind, g).0 == Unlearn(n1, c);
      UnlearnKeeps(n1, c, p);
      TrainKeepsTrans(n, n1, Unlearn(n1, c), p);
    }
  }

  lemma {:induction false} JudgeCellsKeeps(n: Net, list: seq<nat>, activeCells: seq<nat>, p: Params, kind: SegmentType, g: Rng)
    ensures TrainKeeps(n, JudgeCells(n, list, activeCells, p, kind, g).0, p)
    decreases |list|
  {
    if list == [] {
      TrainKeepsRefl(n, p);
    } else {
      var (n1, g1) := JudgeCell(n, list[0], activeCells, p, kind, g);
      JudgeCellKeeps(n, list[0], activeCells, p, kind, g);
      JudgeCellsKeeps(n1, list[1..], activeCells, p, kind, g1);
      TrainKeepsTrans(n, n1, JudgeCells(n1, list[1..], activeCells, p, kind, g1).0, p);
    }
  }

  lemma {:induction false} ConnectKeeps(n: Net, k: nat, sample: seq<nat>, picks: seq<nat>, p: Params)
    requires k < |n.segments|
    requires GrowthBounded(p) ==> |n.segments[k].synapses| + |picks| <= p.maxSynapsesPerSegment
    ensures TrainKeeps(n, Connect(n, k, sample, picks, p.initialPermanence), p)
    decreases |picks|
  {
    if picks == [] {
      TrainKeepsRefl(n, p);
    } else {
      var n1 := n;
      if picks[0] < |sample| && sample[picks[0]] < |n.cells| {
        n1 := NewSynapse(n, sample[picks[0]], k, p.initialPermanence);
        NewSynapseKeeps(n, sample[picks[0]], k, p);
      } else {
        TrainKeepsRefl(n, p);
      }
      ConnectKeeps(n1, k, sample, picks[1..], p);
      TrainKeepsTrans(n, n1, Connect(n1, k, sample, picks[1..], p.initialPermanence), p);
    }
  }

  lemma NewLearnSegmentKeeps(n: Net, c: nat, kind: SegmentType, sample: seq<nat>, p: Params, g: Rng)
    requires c < |n.cells|
    ensures TrainKeeps(n, NewLearnSegment(n, c, kind, sample, p, g).0, p)
  {
    var n1 := OpenSegment(n, kind, c);
    var (picks, g1) := RandomIndexes(|sample|, p.maxNewSynapseCount, false, g);
    OpenSegmentKeeps(n, kind, c, p);
    ConnectKeeps(n1, |n.segments|, sample, picks, p);
    TrainKeepsTrans(n, n1, Connect(n1, |n.segments|, sample, picks, p.initialPermanence), p);
  }

  lemma LearnCellKeeps(n: Net, c: nat, activeCells: seq<nat>, sample: seq<nat>, p: Params, kind: SegmentType, g: Rng)
    ensures TrainKeeps(n, LearnCell(n, c, activeCells, sample, p, kind, g).0, p)
  {
    if c >= |n.cells| || !n.cells[c].learning {
      TrainKeepsRefl(n, p);
    } else {
      var seg := ChosenSegment(n, c, kind);
      var n1 := n;
      if seg.Some? && Matched(n, seg.value) {
        n1 := TrainSegment(n, seg.value, activeCells, p, g).0;
        TrainSegmentKeeps(n, seg.value, activeCells, p, g);
      } else {
        n1 := NewLearnSegment(n, c, kind, sample, p, g).0;
        NewLearnSegmentKeeps(n, c, kind, sample, p, g);
      }
      assert LearnCell(n, c, activeCells, sample, p, kind, g).0 == Unlearn(n1, c);
      UnlearnKeeps(n1, c, p);
      TrainKeepsTrans(n, n1, Unlearn(n1, c), p);
    }
  }

  lemma {:induction false} LearnCellsKeeps(n: Net, list: seq<nat>, activeCells: seq<nat>, sample: seq<nat>, p: Params, kind: SegmentType, g: Rng)
    ensures TrainKeeps(n, LearnCells(n, list, activeCells, sample, p, kind, g).0, p)
    decreases |list|
  {
    if list == [] {
      TrainKeepsRefl(n, p);
    } else {
      var (n1, g1) := LearnCell(n, list[0], activeCells, sample, p, kind, g);
      LearnCellKeeps(n, list[0], activeCells, sample, p, kind, g);
      LearnCellsKeeps(n1, list[1..], activeCells, sample, p, kind, g1);
      TrainKeepsTrans(n, n1, LearnCells(n1, list[1..], activeCells, sample, p, kind, g1).0, p);
    }
  }

  /** Training a matrix pair only appends segments and synapses, changes
      permanences and clears learning flags; it keeps the net well formed,
      keeps permanences in 0..100 when new synapses start in range, and
      keeps every segment within `maxSynapsesPerSegment` when a batch of
      new synapses fits under that cap. The bounds are the receiving
      matrix's parameters. */
  lemma TrainCellMatrixKeeps(n: Net, tx: nat, rx: nat, kind: SegmentType, g: Rng)
    requires rx < |n.matrices|
    ensures TrainKeeps(n, TrainCellMatrix(n, tx, rx, kind, g).0, n.matrices[rx].params)
  {
    var p := n.matrices[rx].params;
    if tx >= |n.matrices| || |n.matrices[tx].activeCellHistory| == 0 || |n.matrices[rx].predictiveCellHistory| == 0 {
      TrainKeepsRefl(n, p);
    } else {
      var Tx := n.matrices[tx];
      var Rx := n.matrices[rx];
      var (n1, g1) := JudgeCells(n, Rx.predictiveCellHistory[0], Tx.activeCellHistory[0], p, kind, g);
      JudgeCellsKeeps(n, Rx.predictiveCellHistory[0], Tx.activeCellHistory[0], p, kind, g);
      if |Rx.learningCellHistory| > 0 && |Rx.learningCellHistory[0]| > 0 {
        var sample := if |Tx.learningCellHistory| > 0 then Tx.learningCellHistory[0] else [];
        LearnCellsKeeps(n1, Rx.learningCells, Tx.activeCellHistory[0], sample, p, kind, g1);
        TrainKeepsTrans(n, n1, LearnCells(n1, Rx.learningCells, Tx.activeCellHistory[0], sample, p, kind, g1).0, p);
      }
    }
  }

  // Learning flags.

  lemma {:induction false} JudgeCellsUnlearn(n: Net, list: seq<nat>, activeCells: seq<nat>, p: Params, kind: SegmentType, g: Rng)
    ensures var r := JudgeCells(n, list, activeCells, p, kind, g).0;
      forall c :: c in list && c < |n.cells| ==> !r.cells[c].learning
    decreases |list|
  {
    if list != [] {
      var (n1, g1) := JudgeCell(n, list[0], activeCells, p, kind, g);
      var r := JudgeCells(n1, list[1..], activeCells, p, kind, g1).0;
      assert r == JudgeCells(n, list, activeCells, p, kind, g).0;
      JudgeCellsUnlearn(n1, list[1..], activeCells, p, kind, g1);
      JudgeCellsKeeps(n1, list[1..], activeCells, p, kind, g1);
      forall c | c in list && c < |n.cells| ensures !r.cells[c].learning {
        if c !in list[1..] {
          assert c == list[0];
          assert CellGrown(n1.cells[c], r.cells[c]);
        }
      }
    }
  }

  lemma {:induction false} LearnCellsUnlearn(n: Net, list: seq<nat>, activeCells: seq<nat>, sample: seq<nat>, p: Params, kind: SegmentType, g: Rng)
    ensures var r := LearnCells(n, list, activeCells, sample, p, kind, g).0;
      forall c :: c in list && c < |n.cells| ==> !r.cells[c].learning
    decreases |list|
  {
    if list != [] {
      var (n1, g1) := LearnCell(n, list[0], activeCells, sample, p, kind, g);
      var r := LearnCells(n1, list[1..], activeCells, sample, p, kind, g1).0;
      assert r == LearnCells(n, list, activeCells, sample, p, kind, g).0;
      LearnCellsUnlearn(n1, list[1..], activeCells, sample, p, kind, g1);
      LearnCellsKeeps(n1, list[1..], activeCells, sample, p, kind, g1);
      forall c | c in list && c < |n.cells| ensures !r.cells[c].learning {
        if c !in list[1..] {
          assert c == list[0];
          assert CellGrown(n1.cells[c], r.cells[c]);
        }
      }
    }
  }

  /** Once both histories exist, every cell of the receiving matrix's
      newest predictive history, and every cell on its learning list when
      its newest learning history is not empty, ends with its learning flag
      cleared, so no cell is trained twice in one step. */
  lemma TrainCellMatrixUnlearns(n: Net, tx: nat, rx: nat, kind: SegmentType, g: Rng)
    requires tx < |n.matrices| && rx < |n.matrices|
    requires |n.matrices[tx].activeCellHistory| > 0 && |n.matrices[rx].predictiveCellHistory| > 0
    ensures var r := TrainCellMatrix(n, tx, rx, kind, g).0; var Rx := n.matrices[rx];
      forall c :: c in Rx.predictiveCellHistory[0] && c < |n.cells| ==> !r.cells[c].learning
    ensures var r := TrainCellMatrix(n, tx, rx, kind, g).0; var Rx := n.matrices[rx];
      |Rx.learningCellHistory| > 0 && |Rx.learningCellHistory[0]| > 0 ==>
        forall c :: c in Rx.learningCells && c < |n.cells| ==> !r.cells[c].learning
  {
    var Tx := n.matrices[tx];
    var Rx := n.matrices[rx];
    var p := Rx.params;
    var (n1, g1) := JudgeCells(n, Rx.predictiveCellHistory[0], Tx.activeCellHistory[0], p, kind, g);
    JudgeCellsUnlearn(n, Rx.predictiveCellHistory[0], Tx.activeCellHistory[0], p, kind, g);
    if |Rx.learningCellHistory| > 0 && |Rx.learningCellHistory[0]| > 0 {
      var sample := if |Tx.learningCellHistory| > 0 then Tx.learningCellHistory[0] else [];
      var r := LearnCells(n1, Rx.learningCells, Tx.activeCellHistory[0], sample, p, kind, g1).0;
      LearnCellsUnlearn(n1, Rx.learningCells, Tx.activeCellHistory[0], sample, p, kind, g1);
      LearnCellsKeeps(n1, Rx.learningCells, Tx.activeCellHistory[0], sample, p, kind, g1);
      forall c | c in Rx.predictiveCellHistory[0] && c < |n.cells| ensures !r.cells[c].learning {
        assert CellGrown(n1.cells[c], r.cells[c]);
      }
    }
  }

  // Overflow segments.

  /** Segment `s` was opened by training on cell `rx`: it has `kind`, the
      cell as receiver, the cell's column, and the timestep `t` as its
      last-used stamp. */
  predicate OpenedOn(s: Segment, kind: SegmentType, rx: nat, column: Option<nat>, t: int)
  {
    s.kind == kind && s.cellRx == Some(rx) && s.column == column && s.lastUsedTimestep == t
  }

  lemma GrowOneFacts(n: Net, cur: nat, activeCells: seq<nat>, pick: nat, p: Params, g: Rng)
    requires cur < |n.segments| && n.segments[cur].cellRx.Some? && n.segments[cur].cellRx.value < |n.cells|
    ensures var (r, cur1, _) := GrowOne(n, cur, activeCells, pick, p, g); var seg := n.segments[cur];
      var rx := seg.cellRx.value;
      && r.segments[cur1].kind == seg.kind
      && r.timestep == n.timestep
      && r.cells[rx].column == n.cells[rx].column
      && (forall i :: |n.segments| <= i < |r.segments| ==>
            OpenedOn(r.segments[i], seg.kind, rx, n.cells[rx].column, n.timestep))
      && r.synapses[..|n.synapses|] == n.synapses
      && (forall j :: |n.synapses| <= j < |r.synapses| ==>
            pick < |activeCells| && r.synapses[j].cellTx == activeCells[pick]
            && r.synapses[j].cellTx < |n.cells| && r.synapses[j].permanence == p.initialPermanence)
  {
    GrowOneKeeps(n, cur, activeCells, pick, p, g);
    var seg := n.segments[cur];
    var rx := seg.cellRx.value;
    var full := |seg.synapses| >= p.maxSynapsesPerSegment;
    var n1 := if full then OpenSegment(n, seg.kind, rx) else n;
    var cur1 := if full then |n.segments| else cur;
    if full {
      assert n1.segments[cur1].kind == seg.kind;
      assert OpenedOn(n1.segments[|n.segments|], seg.kind, rx, n.cells[rx].column, n.timestep);
    }
    assert n1.synapses == n.synapses;
  }

  /** Cell `c` is the active cell at one of the sampled positions. */
  predicate FromSample(activeCells: seq<nat>, picks: seq<nat>, c: nat)
  {
    exists a :: 0 <= a < |picks| && picks[a] < |activeCells| && activeCells[picks[a]] == c
  }

  lemma {:induction false} GrowFacts(n: Net, cur: nat, activeCells: seq<nat>, picks: seq<nat>, p: Params, g: Rng)
    requires cur < |n.segments| && n.segments[cur].cellRx.Some? && n.segments[cur].cellRx.value < |n.cells|
    ensures var r := Grow(n, cur, activeCells, picks, p, g).0; var seg := n.segments[cur];
      var rx := seg.cellRx.value;
      && (forall i :: |n.segments| <= i < |r.segments| ==>
            OpenedOn(r.segments[i], seg.kind, rx, n.cells[rx].column, n.timestep))
      && |n.synapses| <= |r.synapses| && r.synapses[..|n.synapses|] == n.synapses
      && (forall j :: |n.synapses| <= j < |r.synapses| ==>
            FromSample(activeCells, picks, r.synapses[j].cellTx) && r.synapses[j].cellTx < |n.cells|
            && r.synapses[j].permanence == p.initialPermanence)
    decreases |picks|
  {
    if picks != [] {
      var seg := n.segments[cur];
      var rx := seg.cellRx.value;
      var (n2, cur1, g1) := GrowOne(n, cur, activeCells, picks[0], p, g);
      var r := Grow(n2, cur1, activeCells, picks[1..], p, g1).0;
      assert r == Grow(n, cur, activeCells, picks, p, g).0;
      GrowOneFacts(n, cur, activeCells, picks[0], p, g);
      GrowFacts(n2, cur1, activeCells, picks[1..], p, g1);
      GrowKeeps(n2, cur1, activeCells, picks[1..], p, g1);
      forall i | |n.segments| <= i < |r.segments|
        ensures OpenedOn(r.segments[i], seg.kind, rx, n.cells[rx].column, n.timestep)
      {
        if i < |n2.segments| {
          assert SegmentGrown(n2.segments[i], r.segments[i]);
        }
      }
      forall j | |n.synapses| <= j < |r.synapses|
        ensures FromSample(activeCells, picks, r.synapses[j].cellTx) && r.synapses[j].cellTx < |n.cells|
        ensures r.synapses[j].permanence == p.initialPermanence
      {
        if j < |n2.synapses| {
          assert r.synapses[j] == r.synapses[..|n2.synapses|][j] == n2.synapses[j];
          assert picks[0] < |activeCells| && activeCells[picks[0]] == r.synapses[j].cellTx;
        } else {
          var a :| 0 <= a < |picks[1..]| && picks[1..][a] < |activeCells| && activeCells[picks[1..][a]] == r.synapses[j].cellTx;
          assert picks[a + 1] == picks[1..][a];
        }
      }
      assert r.synapses[..|n.synapses|] == n.synapses by {
        assert |n.synapses| <= |n2.synapses| <= |r.synapses|;
        assert r.synapses[..|n.synapses|] == r.synapses[..|n2.synapses|][..|n.synapses|];
        assert n2.synapses[..|n.synapses|] == n.synapses;
      }
    }
  }
  // Sampling without duplicates.

  /** No two sampled positions name cells with the same index. */
  predicate UniqueSamples(cells: seq<Cell>, activeCells: seq<nat>, picks: seq<nat>)
  {
    forall a, b :: 0 <= a < b < |picks| && Sampled(cells, activeCells, picks[a]).Some? ==>
      Sampled(cells, activeCells, picks[a]) != Sampled(cells, activeCells, picks[b])
  }

  /** The active cells carry pairwise different indexes. */
  predicate DistinctIndexes(cells: seq<Cell>, activeCells: seq<nat>)
  {
    forall a, b :: 0 <= a < b < |activeCells| && activeCells[a] < |cells| && activeCells[b] < |cells| ==>
      cells[activeCells[a]].index != cells[activeCells[b]].index
  }

  /** No sampled position names a cell with the index of cell `c`. */
  predicate Avoids(cells: seq<Cell>, activeCells: seq<nat>, picks: seq<nat>, c: nat)
  {
    c < |cells| ==> forall a :: 0 <= a < |picks| ==> Sampled(cells, activeCells, picks[a]) != Some(cells[c].index)
  }

  lemma DistinctSamples(cells: seq<Cell>, activeCells: seq<nat>, picks: seq<nat>)
    requires DistinctIndexes(cells, activeCells) && Distinct(picks)
    ensures UniqueSamples(cells, activeCells, picks)
  {
    forall a, b | 0 <= a < b < |picks| && Sampled(cells, activeCells, picks[a]).Some?
      ensures Sampled(cells, activeCells, picks[a]) != Sampled(cells, activeCells, picks[b])
    {
      if picks[b] < |activeCells| && activeCells[picks[b]] < |cells| {
        assert picks[a] != picks[b];
      }
    }
  }

  /** A cell drawn from the sample differs in index from any cell the
      sample avoids. */
  lemma SampleAvoided(cells: seq<Cell>, activeCells: seq<nat>, picks: seq<nat>, c: nat, tx: nat)
    requires c < |cells| && tx < |cells|
    requires Avoids(cells, activeCells, picks, c) && FromSample(activeCells, picks, tx)
    ensures cells[tx].index != cells[c].index
  {
    var a :| 0 <= a < |picks| && picks[a] < |activeCells| && activeCells[picks[a]] == tx;
    assert Sampled(cells, activeCells, picks[a]) == Some(cells[tx].index);
  }

  lemma AvoidsSub(cells: seq<Cell>, activeCells: seq<nat>, picks: seq<nat>, q: seq<nat>, c: nat)
    requires multiset(q) <= multiset(picks) && Avoids(cells, activeCells, picks, c)
    ensures Avoids(cells, activeCells, q, c)
  {
    forall a | 0 <= a < |q| && c < |cells|
      ensures Sampled(cells, activeCells, q[a]) != Some(cells[c].index)
    {
      assert q[a] in multiset(picks);
    }
  }

  /** Taking out the first position that samples the index of cell `c`
      leaves unique samples none of which names that index. */
  lemma DropSampled(cells: seq<Cell>, activeCells: seq<nat>, picks: seq<nat>, c: nat)
    requires c < |cells| && UniqueSamples(cells, activeCells, picks)
    ensures var r := DropAt(picks, FirstSampled(cells, activeCells, picks, cells[c].index));
      UniqueSamples(cells, activeCells, r) && Avoids(cells, activeCells, r, c)
  {
    var index := cells[c].index;
    var i := FirstSampled(cells, activeCells, picks, index);
    var r := DropAt(picks, i);
    if i < |picks| {
      assert r == picks[..i] + picks[i + 1..];
      forall a, b | 0 <= a < b < |r| && Sampled(cells, activeCells, r[a]).Some?
        ensures Sampled(cells, activeCells, r[a]) != Sampled(cells, activeCells, r[b])
      {
        var a' := if a < i then a else a + 1;
        var b' := if b < i then b else b + 1;
        assert r[a] == picks[a'] && r[b] == picks[b'] && a' < b';
      }
      forall a | 0 <= a < |r| ensures Sampled(cells, activeCells, r[a]) != Some(index) {
        var a' := if a < i then a else a + 1;
        assert r[a] == picks[a'];
      }
    }
  }

  /** The reinforcement loop only takes positions out of the sample, and
      keeps the samples unique. */
  lemma {:induction false} EnforceSubsample(n: Net, activeCells: seq<nat>, hist: seq<nat>, picks: seq<nat>, inactive: seq<nat>, inc: nat)
    ensures var e := Enforce(n, activeCells, hist, picks, inactive, inc);
      && multiset(e.picks) <= multiset(picks)
      && (UniqueSamples(n.cells, activeCells, picks) ==> UniqueSamples(n.cells, activeCells, e.picks))
    decreases |hist|
  {
    if hist != [] {
      if hist[0] >= |n.synapses| {
        EnforceSubsample(n, activeCells, hist[1..], picks, inactive, inc);
      } else {
        var syn := n.synapses[hist[0]];
        var n1 := SetPermanence(n, hist[0], Reinforce(syn.permanence, inc));
        var picks1 :=
          match CellIndex(n.cells, syn.cellTx)
          case None => picks
          case Some(ix) => DropAt(picks, FirstSampled(n.cells, activeCells, picks, ix));
        EnforceSubsample(n1, activeCells, hist[1..], picks1, Without(inactive, hist[0]), inc);
        if syn.cellTx < |n.cells| && UniqueSamples(n.cells, activeCells, picks) {
          DropSampled(n.cells, activeCells, picks, syn.cellTx);
        }
      }
    }
  }

  /** After the reinforcement loop no remaining sampled position names the
      cell of a reinforced synapse: a cell already connected is not
      connected again. */
  lemma {:induction false} EnforceAvoids(n: Net, activeCells: seq<nat>, hist: seq<nat>, picks: seq<nat>, inactive: seq<nat>, inc: nat)
    requires UniqueSamples(n.cells, activeCells, picks)
    ensures var e := Enforce(n, activeCells, hist, picks, inactive, inc);
      forall k :: 0 <= k < |hist| && hist[k] < |n.synapses| ==>
        Avoids(n.cells, activeCells, e.picks, n.synapses[hist[k]].cellTx)
    decreases |hist|
  {
    if hist != [] {
      var e := Enforce(n, activeCells, hist, picks, inactive, inc);
      if hist[0] >= |n.synapses| {
        EnforceAvoids(n, activeCells, hist[1..], picks, inactive, inc);
        assert forall k :: 1 <= k < |hist| ==> hist[k] == hist[1..][k - 1];
      } else {
        var syn := n.synapses[hist[0]];
        var n1 := SetPermanence(n, hist[0], Reinforce(syn.permanence, inc));
        var picks1 :=
          match CellIndex(n.cells, syn.cellTx)
          case None => picks
          case Some(ix) => DropAt(picks, FirstSampled(n.cells, activeCells, picks, ix));
        assert e == Enforce(n1, activeCells, hist[1..], picks1, Without(inactive, hist[0]), inc);
        if syn.cellTx < |n.cells| {
          DropSampled(n.cells, activeCells, picks, syn.cellTx);
        }
        EnforceSubsample(n1, activeCells, hist[1..], picks1, Without(inactive, hist[0]), inc);
        EnforceAvoids(n1, activeCells, hist[1..], picks1, Without(inactive, hist[0]), inc);
        AvoidsSub(n.cells, activeCells, picks1, e.picks, syn.cellTx);
        forall k | 1 <= k < |hist| && hist[k] < |n.synapses|
          ensures Avoids(n.cells, activeCells, e.picks, n.synapses[hist[k]].cellTx)
        {
          assert hist[k] == hist[1..][k - 1];
          assert n1.synapses[hist[k]].cellTx == n.synapses[hist[k]].cellTx;
        }
      }
    }
  }

  // Training one segment, piece by piece.

  /** The synapses active at the previous step, `activeSynapsesHistory[0]`,
      or none when the history is empty. */
  function LastActive(seg: Segment): (r: seq<nat>)
    ensures |seg.activeSynapsesHistory| > 0 ==> r == seg.activeSynapsesHistory[0]
    ensures |seg.activeSynapsesHistory| == 0 ==> r == []
  {
    if |seg.activeSynapsesHistory| > 0 then seg.activeSynapsesHistory[0] else []
  }

  /** The reinforcement phase of training segment `s` on the sampled
      positions `picks`. */
  function EnforceOf(n: Net, s: nat, activeCells: seq<nat>, picks: seq<nat>, p: Params): Enforced
    requires s < |n.segments|
  {
    Enforce(n, activeCells, LastActive(n.segments[s]), picks, n.segments[s].synapses, p.permanenceIncrement)
  }

  /** `TrainSegment` is the reinforcement phase, the degrade phase and, on a
      segment with a receiving cell, growth from the positions left. */
  lemma TrainSegmentPhases(n: Net, s: nat, activeCells: seq<nat>, p: Params, g: Rng)
    requires s < |n.segments|
    ensures var (picks, g1) := RandomIndexes(|activeCells|, p.maxNewSynapseCount, false, g);
      var e := EnforceOf(n, s, activeCells, picks, p);
      var n2 := DegradeAll(e.net, e.inactive, p.permanenceDecrement);
      && n2.segments == n.segments && n2.cells == n.cells && n2.timestep == n.timestep
      && |n2.synapses| == |n.synapses|
      && (forall i :: 0 <= i < |n.synapses| ==> n2.synapses[i].cellTx == n.synapses[i].cellTx)
      && TrainSegment(n, s, activeCells, p, g) ==
           if n.segments[s].cellRx.None? || n.segments[s].cellRx.value >= |n.cells| then (n2, g1)
           else Grow(n2, s, activeCells, e.picks, p, g1)
  {
    var (picks, g1) := RandomIndexes(|activeCells|, p.maxNewSynapseCount, false, g);
    var seg := n.segments[s];
    var e := EnforceOf(n, s, activeCells, picks, p);
    EnforceSegments(n, activeCells, LastActive(seg), picks, seg.synapses, p.permanenceIncrement);
    DegradeAllSegments(e.net, e.inactive, p.permanenceDecrement);
    EnforceKeeps(n, activeCells, LastActive(seg), picks, seg.synapses, p.permanenceIncrement, p);
    var n2 := DegradeAll(e.net, e.inactive, p.permanenceDecrement);
    DegradeAllKeeps(e.net, e.inactive, p.permanenceDecrement, p);
    TrainKeepsTrans(n, e.net, n2, p);
  }

  /** Every segment that training segment `s` opens is an overflow segment
      of the same kind on the same cell, stamped with the current
      timestep. */
  lemma TrainSegmentOverflow(n: Net, s: nat, activeCells: seq<nat>, p: Params, g: Rng)
    requires s < |n.segments|
    ensures var r := TrainSegment(n, s, activeCells, p, g).0; var seg := n.segments[s];
      forall i :: |n.segments| <= i < |r.segments| ==>
        seg.cellRx.Some? && seg.cellRx.value < |n.cells| &&
        OpenedOn(r.segments[i], seg.kind, seg.cellRx.value, n.cells[seg.cellRx.value].column, n.timestep)
  {
    TrainSegmentPhases(n, s, activeCells, p, g);
    var (picks, g1) := RandomIndexes(|activeCells|, p.maxNewSynapseCount, false, g);
    var e := EnforceOf(n, s, activeCells, picks, p);
    var n2 := DegradeAll(e.net, e.inactive, p.permanenceDecrement);
    var seg := n.segments[s];
    if seg.cellRx.Some? && seg.cellRx.value < |n.cells| {
      GrowFacts(n2, s, activeCells, e.picks, p, g1);
    }
  }

  /** Every synapse that training segment `s` adds runs from the active
      cell at one of the sampled positions, with the initial permanence. */
  lemma TrainSegmentSampled(n: Net, s: nat, activeCells: seq<nat>, p: Params, g: Rng)
    requires s < |n.segments|
    ensures var r := TrainSegment(n, s, activeCells, p, g).0;
      var picks := RandomIndexes(|activeCells|, p.maxNewSynapseCount, false, g).0;
      forall j :: |n.synapses| <= j < |r.synapses| ==>
        FromSample(activeCells, picks, r.synapses[j].cellTx) && r.synapses[j].cellTx < |n.cells|
        && r.synapses[j].permanence == p.initialPermanence
  {
    TrainSegmentPhases(n, s, activeCells, p, g);
    var (picks, g1) := RandomIndexes(|activeCells|, p.maxNewSynapseCount, false, g);
    var e := EnforceOf(n, s, activeCells, picks, p);
    var n2 := DegradeAll(e.net, e.inactive, p.permanenceDecrement);
    var seg := n.segments[s];
    if seg.cellRx.Some? && seg.cellRx.value < |n.cells| {
      var r := Grow(n2, s, activeCells, e.picks, p, g1).0;
      GrowFacts(n2, s, activeCells, e.picks, p, g1);
      EnforceSubsample(n, activeCells, LastActive(seg), picks, seg.synapses, p.permanenceIncrement);
      forall j | |n.synapses| <= j < |r.synapses|
        ensures FromSample(activeCells, picks, r.synapses[j].cellTx)
      {
        FromSampleSub(activeCells, e.picks, picks, r.synapses[j].cellTx);
      }
    }
  }

  lemma FromSampleSub(activeCells: seq<nat>, q: seq<nat>, picks: seq<nat>, c: nat)
    requires multiset(q) <= multiset(picks) && FromSample(activeCells, q, c)
    ensures FromSample(activeCells, picks, c)
  {
    var a :| 0 <= a < |q| && q[a] < |activeCells| && activeCells[q[a]] == c;
    assert q[a] in multiset(picks);
    var b :| 0 <= b < |picks| && picks[b] == q[a];
  }

  /** When the active cells carry distinct indexes, no synapse that
      training adds runs from a cell with the index of a cell whose synapse
      was just reinforced. */
  lemma TrainSegmentNoDuplicates(n: Net, s: nat, activeCells: seq<nat>, p: Params, g: Rng)
    requires s < |n.segments| && DistinctIndexes(n.cells, activeCells)
    ensures var r := TrainSegment(n, s, activeCells, p, g).0; var hist := LastActive(n.segments[s]);
      forall j, k ::
        (|n.synapses| <= j < |r.synapses| && 0 <= k < |hist| && hist[k] < |n.synapses|
         && n.synapses[hist[k]].cellTx < |n.cells|) ==>
        r.synapses[j].cellTx < |n.cells| && n.cells[r.synapses[j].cellTx].index != n.cells[n.synapses[hist[k]].cellTx].index
  {
    TrainSegmentPhases(n, s, activeCells, p, g);
    var (picks, g1) := RandomIndexes(|activeCells|, p.maxNewSynapseCount, false, g);
    var seg := n.segments[s];
    var hist := LastActive(seg);
    var e := EnforceOf(n, s, activeCells, picks, p);
    var n2 := DegradeAll(e.net, e.inactive, p.permanenceDecrement);
    if seg.cellRx.Some? && seg.cellRx.value < |n.cells| {
      var r := Grow(n2, s, activeCells, e.picks, p, g1).0;
      GrowFacts(n2, s, activeCells, e.picks, p, g1);
      DistinctSamples(n.cells, activeCells, picks);
      EnforceAvoids(n, activeCells, hist, picks, seg.synapses, p.permanenceIncrement);
      forall j, k | |n.synapses| <= j < |r.synapses| && 0 <= k < |hist| && hist[k] < |n.synapses|
        && n.synapses[hist[k]].cellTx < |n.cells|
        ensures n.cells[r.synapses[j].cellTx].index != n.cells[n.synapses[hist[k]].cellTx].index
      {
        SampleAvoided(n.cells, activeCells, e.picks, n.synapses[hist[k]].cellTx, r.synapses[j].cellTx);
      }
    }
  }

  // Exact permanence updates.

  lemma {:induction false} WithoutDistinct(s: seq<nat>, x: nat)
    requires Distinct(s)
    ensures Distinct(Without(s, x))
    ensures forall y :: y in Without(s, x) <==> y in s && y != x
    decreases |s|
  {
    if s != [] && s[0] != x {
      WithoutDistinct(s[1..], x);
      var r := Without(s, x);
      assert r == [s[0]] + Without(s[1..], x);
      assert s[0] !in s[1..];
    }
  }

  /** The decrement loop lowers exactly the listed synapses, each once. */
  lemma {:induction false} DegradeAllExact(n: Net, syns: seq<nat>, dec: nat)
    requires Distinct(syns)
    ensures var r := DegradeAll(n, syns, dec);
      forall i :: 0 <= i < |n.synapses| ==>
        r.synapses[i].permanence ==
          if i in syns then Degrade(n.synapses[i].permanence, dec) else n.synapses[i].permanence
    decreases |syns|
  {
    if syns != [] {
      var n1 :=
        if syns[0] < |n.synapses| then SetPermanence(n, syns[0], Degrade(n.synapses[syns[0]].permanence, dec))
        else n;
      DegradeAllExact(n1, syns[1..], dec);
      assert syns[0] !in syns[1..];
      assert forall i :: i in syns <==> i == syns[0] || i in syns[1..];
    }
  }

  /** The reinforcement loop raises exactly the listed synapses, each once,
      and takes exactly them off the list still to degrade. */
  lemma {:induction false} EnforceExact(n: Net, activeCells: seq<nat>, hist: seq<nat>, picks: seq<nat>, inactive: seq<nat>, inc: nat)
    requires Distinct(hist) && Distinct(inactive)
    ensures var e := Enforce(n, activeCells, hist, picks, inactive, inc);
      && (forall i :: 0 <= i < |n.synapses| ==>
            e.net.synapses[i].permanence ==
              if i in hist then Reinforce(n.synapses[i].permanence, inc) else n.synapses[i].permanence)
      && Distinct(e.inactive)
      && (forall x :: x in e.inactive <==> x in inactive && !(x in hist && x < |n.synapses|))
    decreases |hist|
  {
    if hist != [] {
      assert hist[0] !in hist[1..];
      assert forall i :: i in hist <==> i == hist[0] || i in hist[1..];
      if hist[0] >= |n.synapses| {
        EnforceExact(n, activeCells, hist[1..], picks, inactive, inc);
      } else {
        var syn := n.synapses[hist[0]];
        var n1 := SetPermanence(n, hist[0], Reinforce(syn.permanence, inc));
        var picks1 :=
          match CellIndex(n.cells, syn.cellTx)
          case None => picks
          case Some(ix) => DropAt(picks, FirstSampled(n.cells, activeCells, picks, ix));
        WithoutDistinct(inactive, hist[0]);
        EnforceExact(n1, activeCells, hist[1..], picks1, Without(inactive, hist[0]), inc);
      }
    }
  }

  /** Training segment `s` sets every permanence exactly: a previously
      active synapse is raised by the increment (clipped at 100), any other
      synapse of the segment is lowered by the decrement (clipped at 0), and
      every other synapse keeps its permanence. */
  lemma TrainSegmentPermanences(n: Net, s: nat, activeCells: seq<nat>, p: Params, g: Rng)
    requires s < |n.segments|
    requires Distinct(LastActive(n.segments[s])) && Distinct(n.segments[s].synapses)
    ensures var r := TrainSegment(n, s, activeCells, p, g).0; var seg := n.segments[s];
      forall i :: 0 <= i < |n.synapses| ==>
        r.synapses[i].permanence ==
          if i in LastActive(seg) then Reinforce(n.synapses[i].permanence, p.permanenceIncrement)
          else if i in seg.synapses then Degrade(n.synapses[i].permanence, p.permanenceDecrement)
          else n.synapses[i].permanence
  {
    TrainSegmentPhases(n, s, activeCells, p, g);
    var (picks, g1) := RandomIndexes(|activeCells|, p.maxNewSynapseCount, false, g);
    var seg := n.segments[s];
    var e := EnforceOf(n, s, activeCells, picks, p);
    var n2 := DegradeAll(e.net, e.inactive, p.permanenceDecrement);
    EnforceExact(n, activeCells, LastActive(seg), picks, seg.synapses, p.permanenceIncrement);
    DegradeAllExact(e.net, e.inactive, p.permanenceDecrement);
    if seg.cellRx.Some? && seg.cellRx.value < |n.cells| {
      var r := Grow(n2, s, activeCells, e.picks, p, g1).0;
      GrowFacts(n2, s, activeCells, e.picks, p, g1);
      forall i | 0 <= i < |n.synapses| ensures r.synapses[i] == n2.synapses[i] {
        assert r.synapses[i] == r.synapses[..|n2.synapses|][i];
      }
    }
  }

  // New learn segments.

  /** The handles `from`, `from + 1`, ..., `to - 1`. */
  function Handles(from: nat, to: nat): (r: seq<nat>)
    requires from <= to
    ensures |r| == to - from && forall i :: 0 <= i < |r| ==> r[i] == from + i
  {
    seq(to - from, i requires 0 <= i < to - from => from + i)
  }

  /** Connecting appends one synapse per usable picked position, all onto
      segment `k` and in the order picked, each from the sampled cell with
      the given permanence. */
  lemma {:induction false} ConnectFacts(n: Net, k: nat, sample: seq<nat>, picks: seq<nat>, permanence: int)
    requires k < |n.segments|
    ensures var r := Connect(n, k, sample, picks, permanence);
      && |n.synapses| <= |r.synapses| <= |n.synapses| + |picks|
      && r.synapses[..|n.synapses|] == n.synapses
      && r.segments[k] == n.segments[k].(synapses := r.segments[k].synapses)
      && r.segments[k].synapses == n.segments[k].synapses + Handles(|n.synapses|, |r.synapses|)
      && (forall j :: |n.synapses| <= j < |r.synapses| ==>
            && r.synapses[j].segment == k && r.synapses[j].permanence == permanence
            && FromSample(sample, picks, r.synapses[j].cellTx) && r.synapses[j].cellTx < |n.cells|)
    decreases |picks|
  {
    var r := Connect(n, k, sample, picks, permanence);
    if picks == [] {
      assert Handles(|n.synapses|, |r.synapses|) == [];
    } else {
      var n1 :=
        if picks[0] < |sample| && sample[picks[0]] < |n.cells| then NewSynapse(n, sample[picks[0]], k, permanence)
        else n;
      ConnectFacts(n1, k, sample, picks[1..], permanence);
      assert r == Connect(n1, k, sample, picks[1..], permanence);
      assert n1.synapses[..|n.synapses|] == n.synapses;
      assert r.synapses[..|n.synapses|] == r.synapses[..|n1.synapses|][..|n.synapses|];
      assert n1.segments[k].synapses == n.segments[k].synapses + Handles(|n.synapses|, |n1.synapses|);
      assert Handles(|n.synapses|, |n1.synapses|) + Handles(|n1.synapses|, |r.synapses|)
          == Handles(|n.synapses|, |r.synapses|);
      forall j | |n.synapses| <= j < |r.synapses|
        ensures r.synapses[j].segment == k && r.synapses[j].permanence == permanence
        ensures FromSample(sample, picks, r.synapses[j].cellTx) && r.synapses[j].cellTx < |n.cells|
      {
        if j < |n1.synapses| {
          assert r.synapses[j] == r.synapses[..|n1.synapses|][j] == n1.synapses[j];
          assert picks[0] < |sample| && sample[picks[0]] == r.synapses[j].cellTx;
        } else {
          var a :| 0 <= a < |picks[1..]| && picks[1..][a] < |sample| && sample[picks[1..][a]] == r.synapses[j].cellTx;
          assert picks[a + 1] == picks[1..][a];
        }
      }
    }
  }

  /** A new learn segment for cell `c` is opened on `c` with `kind` and the
      current timestep, holds exactly the synapses created with it, at most
      `maxNewSynapseCount` of them, and each runs from one of the sampled
      learning cells with the initial permanence. */
  lemma NewLearnSegmentShape(n: Net, c: nat, kind: SegmentType, sample: seq<nat>, p: Params, g: Rng)
    requires c < |n.cells|
    ensures var r := NewLearnSegment(n, c, kind, sample, p, g).0; var k := |n.segments|;
      var picks := RandomIndexes(|sample|, p.maxNewSynapseCount, false, g).0;
      && |r.segments| == k + 1
      && OpenedOn(r.segments[k], kind, c, n.cells[c].column, n.timestep)
      && |n.synapses| <= |r.synapses| <= |n.synapses| + Min(p.maxNewSynapseCount, |sample|)
      && r.segments[k].synapses == Handles(|n.synapses|, |r.synapses|)
      && (forall j :: |n.synapses| <= j < |r.synapses| ==>
            && r.synapses[j].segment == k && r.synapses[j].permanence == p.initialPermanence
            && FromSample(sample, picks, r.synapses[j].cellTx))
  {
    var n1 := OpenSegment(n, kind, c);
    var (picks, g1) := RandomIndexes(|sample|, p.maxNewSynapseCount, false, g);
    var r := Connect(n1, |n.segments|, sample, picks, p.initialPermanence);
    assert r == NewLearnSegment(n, c, kind, sample, p, g).0;
    ConnectFacts(n1, |n.segments|, sample, picks, p.initialPermanence);
    assert n1.segments[|n.segments|].synapses == [];
    assert OpenedOn(n1.segments[|n.segments|], kind, c, n.cells[c].column, n.timestep);
  }

  // What training decides for one cell.

  /** What the first loop of `trainCellMatrix` does to cell `c` (lines
      413-459). When the segment chosen for the cell was active in the
      previous step, a cell that became active has that segment trained
      (a correct prediction), and a cell that did not has every synapse of
      it lowered by `predictedSegmentDecrement`, clipped at 0, with nothing
      else changing (a wrong prediction). Without such a segment nothing
      is trained. Either way the cell stops learning. */
  lemma JudgeCellFacts(n: Net, c: nat, activeCells: seq<nat>, p: Params, kind: SegmentType, g: Rng)
    requires c < |n.cells|
    ensures var (r, g1) := JudgeCell(n, c, activeCells, p, kind, g); var seg := ChosenSegment(n, c, kind);
      && !r.cells[c].learning
      && (seg.Some? && Matched(n, seg.value) && n.cells[c].active ==>
            var t := TrainSegment(n, seg.value, activeCells, p, g);
            && r == t.0.(cells := t.0.cells[c := t.0.cells[c].(learning := false)]) && g1 == t.1
            && (Distinct(LastActive(n.segments[seg.value])) && Distinct(n.segments[seg.value].synapses) ==>
                  forall i :: 0 <= i < |n.synapses| ==>
                    r.synapses[i].permanence ==
                      if i in LastActive(n.segments[seg.value]) then Reinforce(n.synapses[i].permanence, p.permanenceIncrement)
                      else if i in n.segments[seg.value].synapses then Degrade(n.synapses[i].permanence, p.permanenceDecrement)
                      else n.synapses[i].permanence))
      && (seg.Some? && Matched(n, seg.value) && !n.cells[c].active ==>
            && g1 == g && |r.synapses| == |n.synapses|
            && r == n.(cells := n.cells[c := n.cells[c].(learning := false)], synapses := r.synapses)
            && (forall i :: 0 <= i < |n.synapses| ==> r.synapses[i] == n.synapses[i].(permanence := r.synapses[i].permanence))
            && (Distinct(n.segments[seg.value].synapses) ==>
                  forall i :: 0 <= i < |n.synapses| ==>
                    r.synapses[i].permanence ==
                      if i in n.segments[seg.value].synapses then Degrade(n.synapses[i].permanence, p.predictedSegmentDecrement)
                      else n.synapses[i].permanence))
      && (!(seg.Some? && Matched(n, seg.value)) ==>
            g1 == g && r == n.(cells := n.cells[c := n.cells[c].(learning := false)]))
  {
    var seg := ChosenSegment(n, c, kind);
    if seg.Some? && Matched(n, seg.value) {
      var s := seg.value;
      if n.cells[c].active {
        if Distinct(LastActive(n.segments[s])) && Distinct(n.segments[s].synapses) {
          TrainSegmentPermanences(n, s, activeCells, p, g);
        }
      } else {
        var syns := n.segments[s].synapses;
        var d := DegradeAll(n, syns, p.predictedSegmentDecrement);
        DegradeAllSegments(n, syns, p.predictedSegmentDecrement);
        DegradeAllKeeps(n, syns, p.predictedSegmentDecrement, p);
        assert d == n.(synapses := d.synapses);
        if Distinct(syns) {
          DegradeAllExact(n, syns, p.predictedSegmentDecrement);
        }
      }
    }
  }

  /** A learning cell without a matched segment gets one new segment,
      received by it, and nothing else of the net changes shape. */
  lemma LearnCellOpens(n: Net, c: nat, activeCells: seq<nat>, sample: seq<nat>, p: Params, kind: SegmentType, g: Rng)
    requires c < |n.cells| && n.cells[c].learning
    requires var seg := ChosenSegment(n, c, kind); !(seg.Some? && Matched(n, seg.value))
    ensures var r := LearnCell(n, c, activeCells, sample, p, kind, g).0;
      && |r.segments| == |n.segments| + 1
      && OpenedOn(r.segments[|n.segments|], kind, c, n.cells[c].column, n.timestep)
      && |n.synapses| <= |r.synapses| <= |n.synapses| + Min(p.maxNewSynapseCount, |sample|)
      && (forall j :: |n.synapses| <= j < |r.synapses| ==>
            r.synapses[j].segment == |n.segments| && r.synapses[j].permanence == p.initialPermanence)
  {
    NewLearnSegmentShape(n, c, kind, sample, p, g);
    var t := NewLearnSegment(n, c, kind, sample, p, g).0;
    assert LearnCell(n, c, activeCells, sample, p, kind, g).0 == Unlearn(t, c);
  }

  /** What the second loop of `trainCellMatrix` does to cell `c` (lines
      463-510). A cell no longer flagged for learning is left alone. A
      learning cell whose chosen segment was active in the previous step
      has that segment trained; otherwise it gets exactly one new segment
      of the kind, received by `c`, stamped with the current step and
      holding at most `min(maxNewSynapseCount, sample)` new synapses at
      `initialPermanence`. Either way the cell stops learning. */
  lemma LearnCellFacts(n: Net, c: nat, activeCells: seq<nat>, sample: seq<nat>, p: Params, kind: SegmentType, g: Rng)
    requires c < |n.cells|
    ensures var (r, g1) := LearnCell(n, c, activeCells, sample, p, kind, g); var seg := ChosenSegment(n, c, kind);
      && (!n.cells[c].learning ==> r == n && g1 == g)
      && (n.cells[c].learning ==> !r.cells[c].learning)
      && (n.cells[c].learning && seg.Some? && Matched(n, seg.value) ==>
            var t := TrainSegment(n, seg.value, activeCells, p, g);
            r == t.0.(cells := t.0.cells[c := t.0.cells[c].(learning := false)]) && g1 == t.1)
      && (n.cells[c].learning && !(seg.Some? && Matched(n, seg.value)) ==>
            && |r.segments| == |n.segments| + 1
            && OpenedOn(r.segments[|n.segments|], kind, c, n.cells[c].column, n.timestep)
            && |n.synapses| <= |r.synapses| <= |n.synapses| + Min(p.maxNewSynapseCount, |sample|)
            && (forall j :: |n.synapses| <= j < |r.synapses| ==>
                  r.synapses[j].segment == |n.segments| && r.synapses[j].permanence == p.initialPermanence))
  {
    var seg := ChosenSegment(n, c, kind);
    if n.cells[c].learning && !(seg.Some? && Matched(n, seg.value)) {
      LearnCellOpens(n, c, activeCells, sample, p, kind, g);
    }
  }
}
