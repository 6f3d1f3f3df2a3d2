/** `spatialPooling` (htm.controller.js lines 96-171): the layer's proximal
    input matrices are reset, the column scores cleared, the cells named by
    the active input SDRs activated and transmitted (which scores the
    columns), the best-scoring columns become the layer's active columns,
    and, when learning, the proximal synapses of those columns are
    reinforced or degraded. */
module SpatialPooler {
  import opened Base
  import opened Arena
  import opened CellMatrixOps
  import opened Activation
  import opened Selection
  import LayerBuild

  /** Lines 101-104 as intended: each proximal input matrix has both its
      active and its predictive states reset. */
  function ResetInputs(n: Net, inputs: seq<nat>): (r: Net)
    ensures SizesOf(r) == SizesOf(n)
    ensures r.synapses == n.synapses && r.columns == n.columns && r.layers == n.layers
    ensures r.timestep == n.timestep
    decreases |inputs|
  {
    if inputs == [] then n
    else ResetInputs(ResetPredictiveStates(ResetActiveStates(n, inputs[0]), inputs[0]), inputs[1..])
  }

  /** After the resets every input matrix has empty active, learning and
      predictive lists, and every other matrix is as it was. */
  lemma {:induction false} ResetInputsClears(n: Net, inputs: seq<nat>)
    ensures var r := ResetInputs(n, inputs);
      && (forall m :: m in inputs && m < |n.matrices| ==>
            r.matrices[m].activeCells == [] && r.matrices[m].learningCells == []
            && r.matrices[m].predictiveCells == [])
      && (forall m :: 0 <= m < |n.matrices| && m !in inputs ==> r.matrices[m] == n.matrices[m])
    decreases |inputs|
  {
    if inputs != [] {
      var n1 := ResetPredictiveStates(ResetActiveStates(n, inputs[0]), inputs[0]);
      ResetInputsClears(n1, inputs[1..]);
      var r := ResetInputs(n1, inputs[1..]);
      assert r == ResetInputs(n, inputs);
      forall m | m in inputs && m < |n.matrices|
        ensures r.matrices[m].activeCells == [] && r.matrices[m].learningCells == []
        ensures r.matrices[m].predictiveCells == []
      {
        if m !in inputs[1..] {
          assert m == inputs[0];
        }
      }
      forall m | 0 <= m < |n.matrices| && m !in inputs
        ensures r.matrices[m] == n.matrices[m]
      {
        assert m !in inputs[1..] && m != inputs[0];
      }
    }
  }

  lemma {:induction false} ResetInputsWellFormed(n: Net, inputs: seq<nat>)
    requires WellFormed(n)
    ensures WellFormed(ResetInputs(n, inputs))
    decreases |inputs|
  {
    if inputs != [] {
      ResetActiveStatesWellFormed(n, inputs[0]);
      ResetPredictiveStatesWellFormed(ResetActiveStates(n, inputs[0]), inputs[0]);
      ResetInputsWellFormed(ResetPredictiveStates(ResetActiveStates(n, inputs[0]), inputs[0]), inputs[1..]);
    }
  }

  /** Lines 106-109: the score of every column of the layer becomes 0. */
  function ClearScores(n: Net, cols: seq<nat>): (r: Net)
    ensures |r.columns| == |n.columns|
    ensures forall i :: 0 <= i < |n.columns| ==>
      r.columns[i] == if i in cols then n.columns[i].(score := Some(0)) else n.columns[i]
    ensures r.cells == n.cells && r.segments == n.segments && r.synapses == n.synapses
    ensures r.matrices == n.matrices && r.layers == n.layers && r.timestep == n.timestep
    decreases |cols|
  {
    if cols == [] then n
    else
      var n1 := if cols[0] < |n.columns| then SetColumn(n, cols[0], n.columns[cols[0]].(score := Some(0))) else n;
      ClearScores(n1, cols[1..])
  }

  lemma ClearScoresWellFormed(n: Net, cols: seq<nat>)
    requires WellFormed(n)
    ensures WellFormed(ClearScores(n, cols))
  {
    var r := ClearScores(n, cols);
    var z := SizesOf(n);
    assert SizesOf(r) == z;
    forall i | 0 <= i < |r.columns| ensures ColumnOk(r.columns[i], z) {
      assert ColumnOk(n.columns[i], z);
    }
    assert Registered(r);
  }

  /** The cell `input.cells[index]` as a list of at most one handle: empty
      when the index names no cell. */
  function Named(matrixCells: seq<nat>, cellCount: nat, index: nat): (r: seq<nat>)
    ensures |r| <= 1
    ensures forall c :: c in r <==> index < |matrixCells| && matrixCells[index] == c && c < cellCount
  {
    if index < |matrixCells| && matrixCells[index] < cellCount then [matrixCells[index]] else []
  }

  /** The cells an active input SDR names: `input.cells[index]` for each
      listed index, in order, skipping indexes that name no cell. */
  function SdrCells(matrixCells: seq<nat>, cellCount: nat, indexes: seq<nat>): (r: seq<nat>)
    ensures forall a :: 0 <= a < |r| ==> r[a] < cellCount
    ensures forall c :: c in r <==>
      exists j :: 0 <= j < |indexes| && indexes[j] < |matrixCells| && matrixCells[indexes[j]] == c && c < cellCount
    decreases |indexes|
  {
    if indexes == [] then []
    else
      var rest := SdrCells(matrixCells, cellCount, indexes[1..]);
      assert forall j :: 0 <= j < |indexes| - 1 ==> indexes[1..][j] == indexes[j + 1];
      Named(matrixCells, cellCount, indexes[0]) + rest
  }

  /** A cell named by an SDR: active, and learning when learning is on. */
  function Flagged(c: Cell, learn: bool): Cell
  {
    c.(active := true, learning := c.learning || learn)
  }

  /** One index of lines 115-123. */
  function ActivateOne(n: Net, m: nat, index: nat, learn: bool): (r: Net)
    requires m < |n.matrices|
    ensures var M := n.matrices[m]; var s := Named(M.cells, |n.cells|, index);
      && SizesOf(r) == SizesOf(n)
      && r.matrices[m] == M.(activeCells := M.activeCells + s,
                             learningCells := M.learningCells + (if learn then s else []))
      && (forall i :: 0 <= i < |n.matrices| && i != m ==> r.matrices[i] == n.matrices[i])
      && (forall i :: 0 <= i < |n.cells| ==> r.cells[i] == if i in s then Flagged(n.cells[i], learn) else n.cells[i])
    ensures r.segments == n.segments && r.synapses == n.synapses && r.columns == n.columns
    ensures r.layers == n.layers && r.timestep == n.timestep
  {
    var M := n.matrices[m];
    if index < |M.cells| && M.cells[index] < |n.cells| then
      var c := M.cells[index];
      var M' := M.(activeCells := M.activeCells + [c],
                   learningCells := M.learningCells + (if learn then [c] else []));
      SetMatrix(SetCell(n, c, Flagged(n.cells[c], learn)), m, M')
    else n
  }

  /** Lines 113-124 for one input: each named cell becomes active (and
      learning when learning is on) and is appended to the matrix's active
      (and learning) list. */
  function ActivateInput(n: Net, m: nat, indexes: seq<nat>, learn: bool): (r: Net)
    requires m < |n.matrices|
    ensures SizesOf(r) == SizesOf(n)
    ensures r.segments == n.segments && r.synapses == n.synapses && r.columns == n.columns
    ensures r.layers == n.layers && r.timestep == n.timestep
    decreases |indexes|
  {
    if indexes == [] then n
    else ActivateInput(ActivateOne(n, m, indexes[0], learn), m, indexes[1..], learn)
  }

  /** What activating an input does: exactly the named cells are flagged,
      and the matrix's lists grow by exactly those cells, in SDR order. */
  lemma ActivateInputFacts(n: Net, m: nat, indexes: seq<nat>, learn: bool)
    requires m < |n.matrices|
    ensures var r := ActivateInput(n, m, indexes, learn); var M := n.matrices[m];
      var s := SdrCells(M.cells, |n.cells|, indexes);
      && r.matrices[m] == M.(activeCells := M.activeCells + s,
                             learningCells := M.learningCells + (if learn then s else []))
      && (forall i :: 0 <= i < |n.matrices| && i != m ==> r.matrices[i] == n.matrices[i])
      && (forall i :: 0 <= i < |n.cells| ==> r.cells[i] == if i in s then Flagged(n.cells[i], learn) else n.cells[i])
  {
    ActivateInputMatrices(n, m, indexes, learn);
    ActivateInputCells(n, m, indexes, learn);
  }

  lemma {:induction false} ActivateInputMatrices(n: Net, m: nat, indexes: seq<nat>, learn: bool)
    requires m < |n.matrices|
    ensures var r := ActivateInput(n, m, indexes, learn); var M := n.matrices[m];
      var s := SdrCells(M.cells, |n.cells|, indexes);
      && r.matrices[m] == M.(activeCells := M.activeCells + s,
                             learningCells := M.learningCells + (if learn then s else []))
      && (forall i :: 0 <= i < |n.matrices| && i != m ==> r.matrices[i] == n.matrices[i])
  {
    ActivateInputOwn(n, m, indexes, learn);
    ActivateInputOthers(n, m, indexes, learn);
  }

  lemma ActivateInputOwn(n: Net, m: nat, indexes: seq<nat>, learn: bool)
    requires m < |n.matrices|
    ensures var r := ActivateInput(n, m, indexes, learn); var M := n.matrices[m];
      var s := SdrCells(M.cells, |n.cells|, indexes);
      r.matrices[m] == M.(activeCells := M.activeCells + s,
                          learningCells := M.learningCells + (if learn then s else []))
  {
    ActivateInputActive(n, m, indexes, learn);
    ActivateInputLearning(n, m, indexes, learn);
    ActivateInputShape(n, m, indexes, learn);
  }

  lemma {:induction false} ActivateInputActive(n: Net, m: nat, indexes: seq<nat>, learn: bool)
    requires m < |n.matrices|
    ensures var M := n.matrices[m];
      ActivateInput(n, m, indexes, learn).matrices[m].activeCells == M.activeCells + SdrCells(M.cells, |n.cells|, indexes)
    decreases |indexes|
  {
    if indexes != [] {
      var M := n.matrices[m];
      var n1 := ActivateOne(n, m, indexes[0], learn);
      ActivateInputActive(n1, m, indexes[1..], learn);
      var first := Named(M.cells, |n.cells|, indexes[0]);
      var rest := SdrCells(M.cells, |n.cells|, indexes[1..]);
      assert n1.matrices[m].cells == M.cells && |n1.cells| == |n.cells|;
      assert (M.activeCells + first) + rest == M.activeCells + (first + rest);
    }
  }

  lemma {:induction false} ActivateInputLearning(n: Net, m: nat, indexes: seq<nat>, learn: bool)
    requires m < |n.matrices|
    ensures var M := n.matrices[m]; var s := SdrCells(M.cells, |n.cells|, indexes);
      ActivateInput(n, m, indexes, learn).matrices[m].learningCells == M.learningCells + (if learn then s else [])
    decreases |indexes|
  {
    if indexes != [] {
      var M := n.matrices[m];
      var n1 := ActivateOne(n, m, indexes[0], learn);
      ActivateInputLearning(n1, m, indexes[1..], learn);
      var first := Named(M.cells, |n.cells|, indexes[0]);
      var rest := SdrCells(M.cells, |n.cells|, indexes[1..]);
      assert n1.matrices[m].cells == M.cells && |n1.cells| == |n.cells|;
      assert (M.learningCells + first) + rest == M.learningCells + (first + rest);
    }
  }

  /** Activation changes only the two current lists of the input matrix. */
  lemma {:induction false} ActivateInputShape(n: Net, m: nat, indexes: seq<nat>, learn: bool)
    requires m < |n.matrices|
    ensures var R := ActivateInput(n, m, indexes, learn).matrices[m];
      R == n.matrices[m].(activeCells := R.activeCells, learningCells := R.learningCells)
    decreases |indexes|
  {
    if indexes != [] {
      ActivateInputShape(ActivateOne(n, m, indexes[0], learn), m, indexes[1..], learn);
    }
  }

  lemma {:induction false} ActivateInputOthers(n: Net, m: nat, indexes: seq<nat>, learn: bool)
    requires m < |n.matrices|
    ensures var r := ActivateInput(n, m, indexes, learn);
      forall i :: 0 <= i < |n.matrices| && i != m ==> r.matrices[i] == n.matrices[i]
    decreases |indexes|
  {
    if indexes != [] {
      var n1 := ActivateOne(n, m, indexes[0], learn);
      ActivateInputOthers(n1, m, indexes[1..], learn);
    }
  }

  lemma {:induction false} ActivateInputCells(n: Net, m: nat, indexes: seq<nat>, learn: bool)
    requires m < |n.matrices|
    ensures var r := ActivateInput(n, m, indexes, learn); var M := n.matrices[m];
      var s := SdrCells(M.cells, |n.cells|, indexes);
      forall i :: 0 <= i < |n.cells| ==> r.cells[i] == if i in s then Flagged(n.cells[i], learn) else n.cells[i]
    decreases |indexes|
  {
    if indexes != [] {
      var M := n.matrices[m];
      var n1 := ActivateOne(n, m, indexes[0], learn);
      var first := Named(M.cells, |n.cells|, indexes[0]);
      ActivateInputCells(n1, m, indexes[1..], learn);
      var r := ActivateInput(n1, m, indexes[1..], learn);
      assert r == ActivateInput(n, m, indexes, learn);
      var rest := SdrCells(M.cells, |n.cells|, indexes[1..]);
      assert n1.matrices[m].cells == M.cells && |n1.cells| == |n.cells|;
      assert SdrCells(M.cells, |n.cells|, indexes) == first + rest;
      forall i | 0 <= i < |n.cells|
        ensures r.cells[i] == if i in first + rest then Flagged(n.cells[i], learn) else n.cells[i]
      {
        if i in first && i in rest {
          assert Flagged(Flagged(n.cells[i], learn), learn) == Flagged(n.cells[i], learn);
        }
      }
    }
  }

  lemma ActivateInputWellFormed(n: Net, m: nat, indexes: seq<nat>, learn: bool)
    requires WellFormed(n) && m < |n.matrices|
    ensures WellFormed(ActivateInput(n, m, indexes, learn))
  {
    ActivateInputFacts(n, m, indexes, learn);
    ActivateInputHandles(n, m, indexes, learn);
    ActivateInputRegistered(n, m, indexes, learn);
  }

  lemma ActivateInputHandles(n: Net, m: nat, indexes: seq<nat>, learn: bool)
    requires HandlesValid(n) && m < |n.matrices|
    ensures HandlesValid(ActivateInput(n, m, indexes, learn))
  {
    var r := ActivateInput(n, m, indexes, learn);
    var M := n.matrices[m];
    var s := SdrCells(M.cells, |n.cells|, indexes);
    ActivateInputFacts(n, m, indexes, learn);
    var z := SizesOf(n);
    assert SizesOf(r) == z;
    assert IdsBelow(s, |n.cells|);
    assert MatrixOk(M, z);
    forall i | 0 <= i < |r.matrices| ensures MatrixOk(r.matrices[i], z) {
      assert MatrixOk(n.matrices[i], z);
    }
    forall i | 0 <= i < |r.cells| ensures CellOk(r.cells[i], z) {
      assert CellOk(n.cells[i], z);
    }
  }

  lemma ActivateInputRegistered(n: Net, m: nat, indexes: seq<nat>, learn: bool)
    requires Registered(n) && m < |n.matrices|
    ensures Registered(ActivateInput(n, m, indexes, learn))
  {
    var r := ActivateInput(n, m, indexes, learn);
    ActivateInputFacts(n, m, indexes, learn);
    assert LinksKept(n, r);
    LinksRegistered(n, r);
  }

  /** Lines 111-127: each active input SDR is applied to the proximal input
      at the same position, which is then transmitted at the next
      timestep. An SDR with no input at its position is skipped. */
  function FeedInputs(n: Net, inputs: seq<nat>, sdrs: seq<seq<nat>>, learn: bool, timestep: int): (r: Net)
    ensures SizesOf(r) == SizesOf(n)
    ensures r.synapses == n.synapses && r.layers == n.layers && r.timestep == n.timestep
    decreases |sdrs|
  {
    if sdrs == [] then n
    else
      var n1 :=
        if inputs != [] && inputs[0] < |n.matrices| then
          ActivateCellMatrix(ActivateInput(n, inputs[0], sdrs[0], learn), inputs[0], timestep)
        else n;
      FeedInputs(n1, if inputs == [] then [] else inputs[1..], sdrs[1..], learn, timestep)
  }

  lemma {:induction false} FeedInputsWellFormed(n: Net, inputs: seq<nat>, sdrs: seq<seq<nat>>, learn: bool, timestep: int)
    requires WellFormed(n)
    ensures WellFormed(FeedInputs(n, inputs, sdrs, learn, timestep))
    decreases |sdrs|
  {
    if sdrs != [] {
      var n1 := n;
      if inputs != [] && inputs[0] < |n.matrices| {
        var n0 := ActivateInput(n, inputs[0], sdrs[0], learn);
        ActivateInputWellFormed(n, inputs[0], sdrs[0], learn);
        ActivateCellMatrixKeeps(n0, inputs[0], timestep);
        n1 := ActivateCellMatrix(n0, inputs[0], timestep);
      }
      FeedInputsWellFormed(n1, if inputs == [] then [] else inputs[1..], sdrs[1..], learn, timestep);
    }
  }

  /** The score `spatialPooling` compares for a column handle; a handle
      that names no column scores 0. */
  function ScoreOf(n: Net, h: nat): int
  {
    if h < |n.columns| then ScoreValue(n.columns[h]) else 0
  }

  /** The scores of the layer's columns, in layer order. */
  function ColumnScores(n: Net, cols: seq<nat>): (r: seq<int>)
    ensures |r| == |cols|
    ensures forall j :: 0 <= j < |cols| ==> r[j] == ScoreOf(n, cols[j])
  {
    seq(|cols|, j requires 0 <= j < |cols| => ScoreOf(n, cols[j]))
  }

  /** The column handles at the chosen layer positions. */
  function AtPositions(cols: seq<nat>, picks: seq<nat>): (r: seq<nat>)
    requires forall a :: 0 <= a < |picks| ==> picks[a] < |cols|
    ensures |r| == |picks|
    ensures forall a :: 0 <= a < |picks| ==> r[a] == cols[picks[a]]
  {
    seq(|picks|, a requires 0 <= a < |picks| => cols[picks[a]])
  }

  /** The new permanence of a proximal synapse of a winning column (lines
      153-163): reinforced when its transmitting cell is active, degraded
      otherwise, clipped to 0..100. */
  function Learned(n: Net, sid: nat, p: Params): int
    requires sid < |n.synapses| && n.synapses[sid].cellTx < |n.cells|
  {
    var s := n.synapses[sid];
    if n.cells[s.cellTx].active then Reinforce(s.permanence, p.permanenceIncrement)
    else Degrade(s.permanence, p.permanenceDecrement)
  }

  /** The loop over one winning column's proximal synapses. */
  function LearnSynapses(n: Net, syns: seq<nat>, p: Params): (r: Net)
    ensures |r.synapses| == |n.synapses|
    ensures forall i :: 0 <= i < |n.synapses| ==> r.synapses[i] == n.synapses[i].(permanence := r.synapses[i].permanence)
    ensures r.cells == n.cells && r.segments == n.segments && r.columns == n.columns
    ensures r.matrices == n.matrices && r.layers == n.layers && r.timestep == n.timestep
    decreases |syns|
  {
    if syns == [] then n
    else
      var n1 :=
        if syns[0] < |n.synapses| && n.synapses[syns[0]].cellTx < |n.cells| then
          SetPermanence(n, syns[0], Learned(n, syns[0], p))
        else n;
      LearnSynapses(n1, syns[1..], p)
  }

  /** Each listed synapse is updated once when none is listed twice;
      every other synapse keeps its permanence. */
  lemma {:induction false} LearnSynapsesExact(n: Net, syns: seq<nat>, p: Params)
    requires Distinct(syns)
    requires forall a :: 0 <= a < |syns| ==> syns[a] < |n.synapses| && n.synapses[syns[a]].cellTx < |n.cells|
    ensures var r := LearnSynapses(n, syns, p);
      forall i :: 0 <= i < |n.synapses| ==>
        r.synapses[i].permanence == if i in syns then Learned(n, i, p) else n.synapses[i].permanence
    decreases |syns|
  {
    if syns != [] {
      var n1 := SetPermanence(n, syns[0], Learned(n, syns[0], p));
      assert Distinct(syns[1..]) by {
        forall a, b | 0 <= a < b < |syns| - 1 ensures syns[1..][a] != syns[1..][b] {
          assert syns[1..][a] == syns[a + 1] && syns[1..][b] == syns[b + 1];
        }
      }
      LearnSynapsesExact(n1, syns[1..], p);
      var r := LearnSynapses(n1, syns[1..], p);
      assert r == LearnSynapses(n, syns, p);
      forall i | 0 <= i < |n.synapses|
        ensures r.synapses[i].permanence == if i in syns then Learned(n, i, p) else n.synapses[i].permanence
      {
        if i == syns[0] {
          assert i !in syns[1..] by {
            forall b | 0 <= b < |syns| - 1 ensures syns[1..][b] != i {
              assert syns[1..][b] == syns[b + 1];
            }
          }
        } else if i in syns[1..] {
          assert Learned(n1, i, p) == Learned(n, i, p);
        }
      }
    }
  }

  lemma {:induction false} LearnSynapsesPermanences(n: Net, syns: seq<nat>, p: Params)
    requires PermanencesInRange(n)
    ensures PermanencesInRange(LearnSynapses(n, syns, p))
    decreases |syns|
  {
    if syns != [] {
      var n1 := n;
      if syns[0] < |n.synapses| && n.synapses[syns[0]].cellTx < |n.cells| {
        n1 := SetPermanence(n, syns[0], Learned(n, syns[0], p));
      }
      LearnSynapsesPermanences(n1, syns[1..], p);
    }
  }

  /** Lines 149-165: the learning loop over the winning columns. */
  function LearnColumns(n: Net, cols: seq<nat>, p: Params): (r: Net)
    ensures |r.synapses| == |n.synapses|
    ensures forall i :: 0 <= i < |n.synapses| ==> r.synapses[i] == n.synapses[i].(permanence := r.synapses[i].permanence)
    ensures r.cells == n.cells && r.segments == n.segments && r.columns == n.columns
    ensures r.matrices == n.matrices && r.layers == n.layers && r.timestep == n.timestep
    decreases |cols|
  {
    if cols == [] then n
    else
      var n1 :=
        if cols[0] < |n.columns| && n.columns[cols[0]].proximalSegment < |n.segments| then
          LearnSynapses(n, n.segments[n.columns[cols[0]].proximalSegment].synapses, p)
        else n;
      LearnColumns(n1, cols[1..], p)
  }

  lemma {:induction false} LearnColumnsPermanences(n: Net, cols: seq<nat>, p: Params)
    requires PermanencesInRange(n)
    ensures PermanencesInRange(LearnColumns(n, cols, p))
    decreases |cols|
  {
    if cols != [] {
      var n1 := n;
      if cols[0] < |n.columns| && n.columns[cols[0]].proximalSegment < |n.segments| {
        LearnSynapsesPermanences(n, n.segments[n.columns[cols[0]].proximalSegment].synapses, p);
        n1 := LearnSynapses(n, n.segments[n.columns[cols[0]].proximalSegment].synapses, p);
      }
      LearnColumnsPermanences(n1, cols[1..], p);
    }
  }

  /** Only permanences change while learning, so the net stays well formed. */
  lemma LearnColumnsWellFormed(n: Net, cols: seq<nat>, p: Params)
    requires WellFormed(n)
    ensures WellFormed(LearnColumns(n, cols, p))
  {
    var r := LearnColumns(n, cols, p);
    var z := SizesOf(n);
    assert SizesOf(r) == z;
    forall i | 0 <= i < |r.synapses| ensures SynapseOk(r.synapses[i], z) {
      assert SynapseOk(n.synapses[i], z);
    }
    assert Registered(r);
  }

  /** The winners of lines 129-146 for layer `L` in net `n`. */
  function Winners(n: Net, L: Layer): (r: seq<nat>)
    ensures |r| == Min(|L.columns|, ActiveColumnCount(L.params.sparsity, L.params.columnCount))
    ensures forall a :: 0 <= a < |r| ==> r[a] in L.columns
  {
    var picks := Select(ColumnScores(n, L.columns), ActiveColumnCount(L.params.sparsity, L.params.columnCount));
    AtPositions(L.columns, picks)
  }

  /** Lines 101-127: the inputs are reset, the scores cleared and the
      SDRs applied and transmitted at the next timestep. */
  function Prepared(n: Net, L: Layer, sdrs: seq<seq<nat>>, learn: bool): (r: Net)
    ensures SizesOf(r) == SizesOf(n)
    ensures r.synapses == n.synapses && r.layers == n.layers && r.timestep == n.timestep
  {
    FeedInputs(Cleared(n, L), L.proximalInputs, sdrs, learn, n.timestep + 1)
  }

  /** Lines 101-112: the proximal inputs reset and the column scores
      cleared, before any SDR is applied. */
  function Cleared(n: Net, L: Layer): (r: Net)
    ensures SizesOf(r) == SizesOf(n)
    ensures r.synapses == n.synapses && r.layers == n.layers && r.timestep == n.timestep
  {
    ClearScores(ResetInputs(n, L.proximalInputs), L.columns)
  }

  /** Lines 129-170 on the prepared net: the winners are chosen, learn
      when learning is on, and become the layer's active columns. */
  function Conclude(n: Net, l: nat, L: Layer, learn: bool): (r: Outcome)
    requires l < |n.layers|
    ensures SizesOf(r.net) == SizesOf(n) && r.net.timestep == n.timestep
    ensures !learn ==> r.net.synapses == n.synapses
  {
    var w := Winners(n, L);
    if learn then
      var n4 := LearnColumns(n, w, L.params);
      if |w| < ActiveColumnCount(L.params.sparsity, L.params.columnCount) then Threw(n4)
      else Returned(SetLayer(n4, l, L.(activeColumns := w)))
    else Returned(SetLayer(n, l, L.(activeColumns := w)))
  }

  /** `spatialPooling(layerIdx, activeInputSDRs, learningEnabled)` with both
      resets applied to each proximal input. A layer index that names no
      layer throws; so does learning when the layer has fewer columns than
      the active column count (line 151 reads past the winners), after the
      winners present have learned. */
  function SpatialPooling(n: Net, l: nat, sdrs: seq<seq<nat>>, learn: bool): (r: Outcome)
    ensures l >= |n.layers| ==> r == Threw(n)
    ensures SizesOf(r.net) == SizesOf(n) && r.net.timestep == n.timestep
    ensures !learn ==> r.net.synapses == n.synapses
  {
    if l >= |n.layers| then Threw(n)
    else Conclude(Prepared(n, n.layers[l], sdrs, learn), l, n.layers[l], learn)
  }

  /** The winners are the `activeColumnCount` columns of the layer with
      the highest scores, highest first: a column left out never scores
      above a winner. Learning with fewer columns than that count throws
      (line 151), and nothing else does. */
  lemma SpatialPoolingWinners(n: Net, l: nat, sdrs: seq<seq<nat>>, learn: bool)
    requires l < |n.layers|
    ensures var r := SpatialPooling(n, l, sdrs, learn); var L := n.layers[l];
      var k := ActiveColumnCount(L.params.sparsity, L.params.columnCount);
      && (r.Returned? <==> (!learn || |L.columns| >= k))
      && (r.Returned? ==>
            var w := r.net.layers[l].activeColumns;
            && r.net.layers[l] == L.(activeColumns := w)
            && |w| == Min(|L.columns|, k)
            && (forall a :: 0 <= a < |w| ==> w[a] in L.columns)
            && (forall a, b :: 0 <= a < b < |w| ==> ScoreOf(r.net, w[a]) >= ScoreOf(r.net, w[b]))
            && (forall a, j :: 0 <= a < |w| && 0 <= j < |L.columns| && L.columns[j] !in w ==>
                  ScoreOf(r.net, w[a]) >= ScoreOf(r.net, L.columns[j])))
  {
    var n3 := Prepared(n, n.layers[l], sdrs, learn);
    ConcludeWinners(n3, l, n.layers[l], learn);
  }

  lemma ConcludeWinners(n: Net, l: nat, L: Layer, learn: bool)
    requires l < |n.layers| && n.layers[l] == L
    ensures var r := Conclude(n, l, L, learn);
      var k := ActiveColumnCount(L.params.sparsity, L.params.columnCount);
      && (r.Returned? <==> (!learn || |L.columns| >= k))
      && (r.Returned? ==>
            var w := r.net.layers[l].activeColumns;
            && r.net.layers[l] == L.(activeColumns := w)
            && |w| == Min(|L.columns|, k)
            && (forall a :: 0 <= a < |w| ==> w[a] in L.columns)
            && (forall a, b :: 0 <= a < b < |w| ==> ScoreOf(r.net, w[a]) >= ScoreOf(r.net, w[b]))
            && (forall a, j :: 0 <= a < |w| && 0 <= j < |L.columns| && L.columns[j] !in w ==>
                  ScoreOf(r.net, w[a]) >= ScoreOf(r.net, L.columns[j])))
  {
    var r := Conclude(n, l, L, learn);
    var k := ActiveColumnCount(L.params.sparsity, L.params.columnCount);
    var keys := ColumnScores(n, L.columns);
    var picks := Select(keys, k);
    var w := AtPositions(L.columns, picks);
    assert w == Winners(n, L);
    if r.Returned? {
      assert r.net.layers[l] == L.(activeColumns := w);
      assert r.net.columns == n.columns;
      assert forall h :: ScoreOf(r.net, h) == ScoreOf(n, h);
      forall a, b | 0 <= a < b < |w| ensures ScoreOf(r.net, w[a]) >= ScoreOf(r.net, w[b]) {
        assert keys[picks[a]] >= keys[picks[b]];
      }
      forall a, j | 0 <= a < |w| && 0 <= j < |L.columns| && L.columns[j] !in w
        ensures ScoreOf(r.net, w[a]) >= ScoreOf(r.net, L.columns[j])
      {
        assert keys[picks[a]] >= keys[j];
      }
    }
  }

  lemma PreparedWellFormed(n: Net, L: Layer, sdrs: seq<seq<nat>>, learn: bool)
    requires WellFormed(n)
    ensures WellFormed(Prepared(n, L, sdrs, learn))
  {
    ClearedWellFormed(n, L);
    FeedInputsWellFormed(Cleared(n, L), L.proximalInputs, sdrs, learn, n.timestep + 1);
  }

  lemma ClearedWellFormed(n: Net, L: Layer)
    requires WellFormed(n)
    ensures WellFormed(Cleared(n, L))
  {
    ResetInputsWellFormed(n, L.proximalInputs);
    ClearScoresWellFormed(ResetInputs(n, L.proximalInputs), L.columns);
  }

  lemma ConcludeWellFormed(n: Net, l: nat, L: Layer, learn: bool)
    requires WellFormed(n) && l < |n.layers| && n.layers[l] == L
    ensures WellFormed(Conclude(n, l, L, learn).net)
  {
    var w := Winners(n, L);
    var n4 := if learn then LearnColumns(n, w, L.params) else n;
    if learn {
      LearnColumnsWellFormed(n, w, L.params);
    }
    assert SizesOf(n4) == SizesOf(n);
    assert LayerOk(L, SizesOf(n));
    assert IdsBelow(w, |n4.columns|);
    LayerBuild.SetLayerWellFormed(n4, l, L.(activeColumns := w));
  }

  /** Spatial pooling keeps the net well formed. */
  lemma SpatialPoolingWellFormed(n: Net, l: nat, sdrs: seq<seq<nat>>, learn: bool)
    requires WellFormed(n)
    ensures WellFormed(SpatialPooling(n, l, sdrs, learn).net)
  {
    if l < |n.layers| {
      PreparedWellFormed(n, n.layers[l], sdrs, learn);
      ConcludeWellFormed(Prepared(n, n.layers[l], sdrs, learn), l, n.layers[l], learn);
    }
  }

  /** Spatial pooling keeps every permanence within 0..100. */
  lemma SpatialPoolingPermanences(n: Net, l: nat, sdrs: seq<seq<nat>>, learn: bool)
    requires PermanencesInRange(n)
    ensures PermanencesInRange(SpatialPooling(n, l, sdrs, learn).net)
  {
    if l < |n.layers| && learn {
      var L := n.layers[l];
      var n3 := Prepared(n, L, sdrs, learn);
      LearnColumnsPermanences(n3, Winners(n3, L), L.params);
    }
  }

  /** Lines 101-104 as written: `resetActiveStates()` returns nothing, so
      the chained `.resetPredictiveStates()` throws as soon as the first
      proximal input has had its active states reset. */
  function SpatialPoolingAsWritten(n: Net, l: nat, sdrs: seq<seq<nat>>, learn: bool): (r: Outcome)
    ensures r.net.layers == n.layers || l < |n.layers|
  {
    if l >= |n.layers| then Threw(n)
    else if |n.layers[l].proximalInputs| > 0 then Threw(ResetActiveStates(n, n.layers[l].proximalInputs[0]))
    else SpatialPooling(n, l, sdrs, learn)
  }

  /** As written, spatial pooling of any layer with a proximal input throws
      before any column is scored: the layer's active columns and every
      column are left as they were. Without proximal inputs it agrees with
      the corrected version. */
  lemma AsWrittenThrows(n: Net, l: nat, sdrs: seq<seq<nat>>, learn: bool)
    requires l < |n.layers|
    ensures |n.layers[l].proximalInputs| > 0 ==>
      var r := SpatialPoolingAsWritten(n, l, sdrs, learn);
      r.Threw? && r.net.layers == n.layers && r.net.columns == n.columns
    ensures |n.layers[l].proximalInputs| == 0 ==>
      SpatialPoolingAsWritten(n, l, sdrs, learn) == SpatialPooling(n, l, sdrs, learn)
  {
  }

  /** The corrected version resets every proximal input fully, and it
      returns normally whenever the winners suffice, proximal inputs or not. */
  lemma CorrectedResetsInputs(n: Net, l: nat, sdrs: seq<seq<nat>>, learn: bool)
    requires l < |n.layers|
    ensures var L := n.layers[l]; var r := ResetInputs(n, L.proximalInputs);
      forall m :: m in L.proximalInputs && m < |n.matrices| ==>
        r.matrices[m].activeCells == [] && r.matrices[m].learningCells == [] && r.matrices[m].predictiveCells == []
    ensures var L := n.layers[l];
      (!learn || |L.columns| >= ActiveColumnCount(L.params.sparsity, L.params.columnCount)) ==>
        SpatialPooling(n, l, sdrs, learn).Returned?
  {
    ResetInputsClears(n, n.layers[l].proximalInputs);
    SpatialPoolingWinners(n, l, sdrs, learn);
  }
}
