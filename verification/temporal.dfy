/** The temporal memory of a layer: `tmActivate` (htm.controller.js lines
    217-273) activates the cells of the active columns, `tmPredict` (lines
    283-310) saves the best matching segments and transmits the activity,
    `tmLearn` (lines 319-322) trains the layer's distal segments, and
    `temporalMemory` (lines 177-194) runs the three phases as one step.
    `inputMemory` (lines 201-208) trains the input cells' apical segments. */
module TemporalMemory {
  import opened Base
  import opened Arena
  import opened Sampling
  import opened CellMatrixOps
  import opened Activation
  import opened Training

  // Phase 1: activation.

  /** The column's predictive cells, in column order. */
  function PredictiveOf(n: Net, cells: seq<nat>): (r: seq<nat>)
    requires IdsBelow(cells, |n.cells|)
    ensures IdsBelow(r, |n.cells|)
    ensures forall c :: c in r <==> c in cells && c < |n.cells| && n.cells[c].predictive
    ensures r == [] <==> forall i :: 0 <= i < |cells| ==> !n.cells[cells[i]].predictive
    decreases |cells|
  {
    if cells == [] then []
    else (if n.cells[cells[0]].predictive then [cells[0]] else []) + PredictiveOf(n, cells[1..])
  }

  /** The number of distal segments of each of a column's cells. */
  function DistalCounts(n: Net, cells: seq<nat>): (r: seq<int>)
    requires IdsBelow(cells, |n.cells|)
    ensures |r| == |cells|
    ensures forall i :: 0 <= i < |cells| ==> r[i] == |n.cells[cells[i]].distalSegments|
  {
    seq(|cells|, i requires 0 <= i < |cells| => |n.cells[cells[i]].distalSegments|)
  }

  /** A column handle that names a column whose cell handles all name cells. */
  predicate LiveColumn(n: Net, col: nat)
  {
    col < |n.columns| && IdsBelow(n.columns[col].cells, |n.cells|)
  }

  /** No cell of the column is predictive: its input was not predicted. */
  predicate Unpredicted(n: Net, col: nat)
    requires LiveColumn(n, col)
  {
    forall i :: 0 <= i < |n.columns[col].cells| ==> !n.cells[n.columns[col].cells[i]].predictive
  }

  /** Cell `c` becomes active through column `col`: it is one of the
      column's cells, and either it is predictive or no cell of the column
      is (the column bursts). */
  predicate ColumnActive(n: Net, col: nat, c: nat)
  {
    && LiveColumn(n, col) && c in n.columns[col].cells && c < |n.cells|
    && (n.cells[c].predictive || Unpredicted(n, col))
  }

  /** The cells one active column activates and flags for learning, and
      whether choosing its learning cell throws. */
  datatype Activity = Activity(active: seq<nat>, learning: seq<nat>, throws: bool)

  /** An unpredicted learning column whose learning cell cannot be named:
      an empty column without a best segment leaves `learningCell`
      undefined (line 263), and a best segment without a receiving cell has
      no `cellRx` (line 267). Either assignment is a `TypeError`. */
  predicate LearnerMissing(n: Net, col: nat)
    requires LiveColumn(n, col)
  {
    match n.columns[col].bestDistalSegment
    case None => |n.columns[col].cells| == 0
    case Some(b) => b < |n.segments| && n.segments[b].cellRx.None?
  }

  /** Column `col` throws while learning. */
  predicate ColumnThrows(n: Net, col: nat, learn: bool)
  {
    learn && LiveColumn(n, col) && Unpredicted(n, col) && LearnerMissing(n, col)
  }

  /** The body of the loop of lines 225-271 for one active column. A
      predicted column activates its predictive cells, which also learn when
      learning is on. An unpredicted column activates all its cells; when
      learning, it flags the cell of its best matching distal segment or,
      without one, the first cell with the fewest distal segments going
      round from a random start. A column whose learning cell is missing
      throws after activating its cells; a best segment whose receiving
      cell handle names no cell flags nothing. */
  function ColumnActivity(n: Net, col: nat, learn: bool, g: Rng): (r: (Activity, Rng))
    requires LiveColumn(n, col)
  {
    var cells := n.columns[col].cells;
    var predicted := PredictiveOf(n, cells);
    if predicted != [] then (Activity(predicted, if learn then predicted else [], false), g)
    else if !learn then (Activity(cells, [], false), g)
    else
      match n.columns[col].bestDistalSegment
      case None =>
        var (x, g1) := Roll(g, |cells|);
        if |cells| == 0 then (Activity(cells, [], true), g1)
        else (Activity(cells, [cells[FewestFrom(DistalCounts(n, cells), x)]], false), g1)
      case Some(b) =>
        if b < |n.segments| && n.segments[b].cellRx.None? then (Activity(cells, [], true), g)
        else if b < |n.segments| && n.segments[b].cellRx.value < |n.cells|
        then (Activity(cells, [n.segments[b].cellRx.value], false), g)
        else (Activity(cells, [], false), g)
  }

  /** The inputs a column's activity depends on: predictive flags, distal
      segment lists, columns and segments' receiving cells. */
  predicate SameInputs(n: Net, r: Net)
  {
    && |r.cells| == |n.cells| && r.columns == n.columns && |r.segments| == |n.segments|
    && (forall i :: 0 <= i < |n.cells| ==>
          r.cells[i].predictive == n.cells[i].predictive && r.cells[i].distalSegments == n.cells[i].distalSegments)
    && (forall i :: 0 <= i < |n.segments| ==> r.segments[i].cellRx == n.segments[i].cellRx)
  }

  lemma SameInputsTrans(a: Net, b: Net, c: Net)
    requires SameInputs(a, b) && SameInputs(b, c)
    ensures SameInputs(a, c)
  {
  }

  lemma {:induction false} PredictiveOfSame(n: Net, r: Net, cells: seq<nat>)
    requires SameInputs(n, r) && IdsBelow(cells, |n.cells|)
    ensures PredictiveOf(r, cells) == PredictiveOf(n, cells)
    decreases |cells|
  {
    if cells != [] {
      PredictiveOfSame(n, r, cells[1..]);
    }
  }

  /** A column's activity depends only on its inputs. */
  lemma ColumnActivitySame(n: Net, r: Net, col: nat, learn: bool, g: Rng)
    requires SameInputs(n, r)
    ensures LiveColumn(r, col) == LiveColumn(n, col)
    ensures LiveColumn(n, col) ==> ColumnActivity(r, col, learn, g) == ColumnActivity(n, col, learn, g)
    ensures forall c :: ColumnActive(r, col, c) == ColumnActive(n, col, c)
    ensures ColumnThrows(r, col, learn) == ColumnThrows(n, col, learn)
  {
    if LiveColumn(n, col) {
      var cells := n.columns[col].cells;
      PredictiveOfSame(n, r, cells);
      assert DistalCounts(r, cells) == DistalCounts(n, cells);
    }
  }

  /** What one column does: it activates exactly its `ColumnActive` cells;
      without learning it flags none, in a predicted column it flags the
      cells it activates, and in an unpredicted column with a best matching
      segment it flags that segment's cell; only an unpredicted learning
      column without a best segment draws from the random source. The
      column throws exactly when it learns, is unpredicted and its learning
      cell is missing. */
  lemma ColumnActivityFacts(n: Net, col: nat, learn: bool, g: Rng)
    requires LiveColumn(n, col)
    ensures var (a, g1) := ColumnActivity(n, col, learn, g); var C := n.columns[col];
      && IdsBelow(a.active, |n.cells|) && IdsBelow(a.learning, |n.cells|)
      && (forall c :: c in a.active <==> ColumnActive(n, col, c))
      && (!learn ==> a.learning == [])
      && (learn && !Unpredicted(n, col) ==> a.learning == a.active)
      && (learn && Unpredicted(n, col) && C.bestDistalSegment.Some? ==>
            var b := C.bestDistalSegment.value;
            a.learning == if b < |n.segments| && n.segments[b].cellRx.Some? && n.segments[b].cellRx.value < |n.cells|
                          then [n.segments[b].cellRx.value] else [])
      && (a.throws <==> ColumnThrows(n, col, learn))
      && g1 == if learn && Unpredicted(n, col) && C.bestDistalSegment.None? then Roll(g, |C.cells|).1 else g
  {
  }

  /** An unpredicted column learning without a best segment flags exactly
      one of its cells: the first, going round from the random start, of
      those with the fewest distal segments. No cell of the column has
      fewer. */
  lemma BurstLearnerFewest(n: Net, col: nat, g: Rng)
    requires LiveColumn(n, col) && Unpredicted(n, col)
    requires n.columns[col].bestDistalSegment.None? && |n.columns[col].cells| > 0
    ensures var a := ColumnActivity(n, col, true, g).0; var cells := n.columns[col].cells;
      && |a.learning| == 1
      && (exists k :: 0 <= k < |cells| && a.learning[0] == cells[k]
            && FirstMinFrom(DistalCounts(n, cells), Roll(g, |cells|).0, k))
      && forall i :: 0 <= i < |cells| ==>
           |n.cells[a.learning[0]].distalSegments| <= |n.cells[cells[i]].distalSegments|
  {
    var cells := n.columns[col].cells;
    var keys := DistalCounts(n, cells);
    var x := Roll(g, |cells|).0;
    var k := FewestFrom(keys, x);
    forall i | 0 <= i < |cells| ensures keys[k] <= keys[i] {
      assert Steps(x, i, |keys|) < |keys|;
    }
  }

  /** `cell.active = true` (`cell.learning = true` when `learning`) on each
      listed cell. */
  function RaiseFlags(cells: seq<Cell>, list: seq<nat>, learning: bool): (r: seq<Cell>)
    ensures |r| == |cells|
    ensures forall i :: 0 <= i < |cells| ==>
      r[i] == if i !in list then cells[i]
              else if learning then cells[i].(learning := true) else cells[i].(active := true)
    decreases |list|
  {
    if list == [] then cells
    else
      var c := list[0];
      var c1 :=
        if c >= |cells| then cells
        else if learning then cells[c := cells[c].(learning := true)]
        else cells[c := cells[c].(active := true)];
      RaiseFlags(c1, list[1..], learning)
  }

  /** The flags a column's activity sets and the pushes onto the matrix's
      active and learning lists. */
  function ApplyActivity(n: Net, m: nat, a: Activity): (r: Net)
    requires m < |n.matrices|
  {
    var M := n.matrices[m];
    n.(cells := RaiseFlags(RaiseFlags(n.cells, a.active, false), a.learning, true),
       matrices := n.matrices[m := M.(activeCells := M.activeCells + a.active,
                                      learningCells := M.learningCells + a.learning)])
  }

  /** The loop of lines 224-272 over the active columns, pushing onto the
      lists of matrix `m`; the first column that throws ends the loop. A
      column handle that names no column, or a column with a cell handle
      that names no cell, is skipped. */
  function ActivateColumns(n: Net, m: nat, cols: seq<nat>, learn: bool, g: Rng): (r: (Outcome, Rng))
    requires m < |n.matrices|
    ensures SizesOf(r.0.net) == SizesOf(n) && r.0.net.layers == n.layers && r.0.net.timestep == n.timestep
    ensures forall k :: 0 <= k < |n.matrices| ==> r.0.net.matrices[k].params == n.matrices[k].params
    decreases |cols|
  {
    if cols == [] then (Returned(n), g)
    else if !LiveColumn(n, cols[0]) then ActivateColumns(n, m, cols[1..], learn, g)
    else
      var (a, g1) := ColumnActivity(n, cols[0], learn, g);
      var n1 := ApplyActivity(n, m, a);
      if a.throws then (Threw(n1), g1) else ActivateColumns(n1, m, cols[1..], learn, g1)
  }

  /** `tmActivate(layer, learn)` on layer `l`: the layer's matrix saves and
      clears its active and learning states, then every active column
      activates its cells. A handle that names no layer or matrix is a
      `TypeError` at line 221, before anything changes. */
  function TmActivate(n: Net, l: nat, learn: bool, g: Rng): (r: (Outcome, Rng))
    ensures SizesOf(r.0.net) == SizesOf(n) && r.0.net.layers == n.layers && r.0.net.timestep == n.timestep
    ensures forall k :: 0 <= k < |n.matrices| ==> r.0.net.matrices[k].params == n.matrices[k].params
  {
    if l >= |n.layers| || n.layers[l].cellMatrix >= |n.matrices| then (Threw(n), g)
    else
      var m := n.layers[l].cellMatrix;
      ActivateColumns(ResetActiveStates(n, m), m, n.layers[l].activeColumns, learn, g)
  }

  /** A matrix's active and learning lists only grow, and every cell
      appended to them carries the matching flag in `cells`. */
  predicate ListsGrown(a: CellMatrix, b: CellMatrix, cells: seq<Cell>)
  {
    && a.activeCells <= b.activeCells && a.learningCells <= b.learningCells
    && (forall j :: |a.activeCells| <= j < |b.activeCells| ==>
          b.activeCells[j] < |cells| && cells[b.activeCells[j]].active)
    && (forall j :: |a.learningCells| <= j < |b.learningCells| ==>
          b.learningCells[j] < |cells| && cells[b.learningCells[j]].learning)
  }

  /** A cell only gains the active and learning flags. */
  predicate FlagsRaised(a: Cell, b: Cell)
  {
    && b == a.(active := b.active, learning := b.learning)
    && (a.active ==> b.active) && (a.learning ==> b.learning)
  }

  /** Everything activating columns may do: raise cells' active and
      learning flags and append flagged cells to the matrices' active and
      learning lists. */
  predicate ActivityFrame(n: Net, r: Net)
  {
    && |r.cells| == |n.cells| && r.segments == n.segments && r.synapses == n.synapses
    && r.columns == n.columns && r.layers == n.layers && r.timestep == n.timestep
    && |r.matrices| == |n.matrices|
    && (forall i :: 0 <= i < |n.cells| ==> FlagsRaised(n.cells[i], r.cells[i]))
    && (forall i :: 0 <= i < |n.matrices| ==>
          && r.matrices[i] == n.matrices[i].(activeCells := r.matrices[i].activeCells,
                                             learningCells := r.matrices[i].learningCells)
          && ListsGrown(n.matrices[i], r.matrices[i], r.cells))
  }

  lemma ListsGrownTrans(a: CellMatrix, b: CellMatrix, c: CellMatrix, bc: seq<Cell>, cc: seq<Cell>)
    requires ListsGrown(a, b, bc) && ListsGrown(b, c, cc)
    requires |cc| == |bc| && forall i :: 0 <= i < |bc| ==> FlagsRaised(bc[i], cc[i])
    ensures ListsGrown(a, c, cc)
  {
    forall j | |a.activeCells| <= j < |b.activeCells| ensures cc[c.activeCells[j]].active {
      assert c.activeCells[j] == b.activeCells[j];
      assert FlagsRaised(bc[b.activeCells[j]], cc[b.activeCells[j]]);
    }
    forall j | |a.learningCells| <= j < |b.learningCells| ensures cc[c.learningCells[j]].learning {
      assert c.learningCells[j] == b.learningCells[j];
      assert FlagsRaised(bc[b.learningCells[j]], cc[b.learningCells[j]]);
    }
  }

  lemma ActivityFrameTrans(a: Net, b: Net, c: Net)
    requires ActivityFrame(a, b) && ActivityFrame(b, c)
    ensures ActivityFrame(a, c)
  {
    forall i | 0 <= i < |a.matrices| ensures ListsGrown(a.matrices[i], c.matrices[i], c.cells) {
      ListsGrownTrans(a.matrices[i], b.matrices[i], c.matrices[i], b.cells, c.cells);
    }
    forall i | 0 <= i < |a.cells| ensures FlagsRaised(a.cells[i], c.cells[i]) {
      assert FlagsRaised(b.cells[i], c.cells[i]);
    }
  }

  lemma ActivityFrameSameInputs(n: Net, r: Net)
    requires ActivityFrame(n, r)
    ensures SameInputs(n, r)
  {
  }

  /** Raising the active flags of `act` and the learning flags of `lrn`
      only raises flags, and raises all of them. */
  lemma RaiseBothFacts(cells: seq<Cell>, act: seq<nat>, lrn: seq<nat>)
    ensures var r := RaiseFlags(RaiseFlags(cells, act, false), lrn, true);
      && |r| == |cells|
      && (forall i :: 0 <= i < |cells| ==> FlagsRaised(cells[i], r[i]))
      && (forall c :: c in act && c < |cells| ==> r[c].active)
      && (forall c :: c in lrn && c < |cells| ==> r[c].learning)
  {
    var c1 := RaiseFlags(cells, act, false);
    var r := RaiseFlags(c1, lrn, true);
    forall i | 0 <= i < |cells| ensures FlagsRaised(cells[i], r[i]) {
      assert FlagsRaised(cells[i], c1[i]);
    }
  }

  /** Applying a column's activity appends flagged cells to matrix `m`'s
      lists and to no other matrix. */
  lemma ApplyActivityMatrices(n: Net, m: nat, a: Activity)
    requires m < |n.matrices| && IdsBelow(a.active, |n.cells|) && IdsBelow(a.learning, |n.cells|)
    ensures var r := ApplyActivity(n, m, a);
      forall i :: 0 <= i < |n.matrices| ==>
        && r.matrices[i] == n.matrices[i].(activeCells := r.matrices[i].activeCells,
                                           learningCells := r.matrices[i].learningCells)
        && ListsGrown(n.matrices[i], r.matrices[i], r.cells)
  {
    var r := ApplyActivity(n, m, a);
    var M := n.matrices[m];
    var R := r.matrices[m];
    RaiseBothFacts(n.cells, a.active, a.learning);
    assert ListsGrown(M, R, r.cells) by {
      forall j | |M.activeCells| <= j < |R.activeCells| ensures R.activeCells[j] < |r.cells| && r.cells[R.activeCells[j]].active {
        assert R.activeCells[j] == a.active[j - |M.activeCells|];
      }
      forall j | |M.learningCells| <= j < |R.learningCells| ensures R.learningCells[j] < |r.cells| && r.cells[R.learningCells[j]].learning {
        assert R.learningCells[j] == a.learning[j - |M.learningCells|];
      }
    }
    forall i | 0 <= i < |n.matrices|
      ensures r.matrices[i] == n.matrices[i].(activeCells := r.matrices[i].activeCells,
                                             learningCells := r.matrices[i].learningCells)
      ensures ListsGrown(n.matrices[i], r.matrices[i], r.cells)
    {
      if i != m {
        assert r.matrices[i] == n.matrices[i];
      }
    }
  }

  /** Applying a column's activity only raises flags and appends flagged
      cells to matrix `m`'s lists. */
  lemma ApplyActivityFrame(n: Net, m: nat, a: Activity)
    requires m < |n.matrices| && IdsBelow(a.active, |n.cells|) && IdsBelow(a.learning, |n.cells|)
    ensures ActivityFrame(n, ApplyActivity(n, m, a))
  {
    var r := ApplyActivity(n, m, a);
    RaiseBothFacts(n.cells, a.active, a.learning);
    ApplyActivityMatrices(n, m, a);
    assert r == n.(cells := r.cells, matrices := r.matrices);
  }

  /** Applying a column's activity raises exactly the flags of its cells
      and appends them to matrix `m`'s lists. */
  lemma ApplyActivityFacts(n: Net, m: nat, a: Activity)
    requires m < |n.matrices| && IdsBelow(a.active, |n.cells|) && IdsBelow(a.learning, |n.cells|)
    ensures var r := ApplyActivity(n, m, a); var M := n.matrices[m];
      && ActivityFrame(n, r)
      && r.matrices[m].activeCells == M.activeCells + a.active
      && r.matrices[m].learningCells == M.learningCells + a.learning
      && (forall i :: 0 <= i < |n.matrices| && i != m ==> r.matrices[i] == n.matrices[i])
      && (forall c :: c in a.active ==> r.cells[c].active)
      && (forall c :: c in a.learning ==> r.cells[c].learning)
  {
    ApplyActivityFrame(n, m, a);
    RaiseBothFacts(n.cells, a.active, a.learning);
  }

  /** The column loop, whether it ends or throws, only raises flags and
      appends to matrix `m`; with learning off it flags nothing. */
  lemma {:induction false} ActivateColumnsFrame(n: Net, m: nat, cols: seq<nat>, learn: bool, g: Rng)
    requires m < |n.matrices|
    ensures var r := ActivateColumns(n, m, cols, learn, g).0.net;
      && ActivityFrame(n, r)
      && (forall i :: 0 <= i < |n.matrices| && i != m ==> r.matrices[i] == n.matrices[i])
      && (!learn ==> r.matrices[m].learningCells == n.matrices[m].learningCells)
    decreases |cols|
  {
    if cols == [] {
    } else if !LiveColumn(n, cols[0]) {
      ActivateColumnsFrame(n, m, cols[1..], learn, g);
    } else {
      var (a, g1) := ColumnActivity(n, cols[0], learn, g);
      var n1 := ApplyActivity(n, m, a);
      ColumnActivityFacts(n, cols[0], learn, g);
      ApplyActivityFacts(n, m, a);
      if !a.throws {
        ActivateColumnsFrame(n1, m, cols[1..], learn, g1);
        ActivityFrameTrans(n, n1, ActivateColumns(n1, m, cols[1..], learn, g1).0.net);
      }
      if !learn {
        assert n1.matrices[m].learningCells == n.matrices[m].learningCells;
      }
    }
  }

  /** Some listed column throws while learning. */
  predicate ActivationThrows(n: Net, cols: seq<nat>, learn: bool)
  {
    exists i :: 0 <= i < |cols| && ColumnThrows(n, cols[i], learn)
  }

  lemma ActivationThrowsCons(n: Net, cols: seq<nat>, learn: bool)
    requires cols != []
    ensures ActivationThrows(n, cols, learn) <==> ColumnThrows(n, cols[0], learn) || ActivationThrows(n, cols[1..], learn)
  {
    if ActivationThrows(n, cols, learn) && !ColumnThrows(n, cols[0], learn) {
      var i :| 0 <= i < |cols| && ColumnThrows(n, cols[i], learn);
      assert cols[1..][i - 1] == cols[i];
    }
    if ActivationThrows(n, cols[1..], learn) {
      var i :| 0 <= i < |cols[1..]| && ColumnThrows(n, cols[1..][i], learn);
      assert cols[i + 1] == cols[1..][i];
    }
  }

  lemma ActivationThrowsSame(n: Net, r: Net, cols: seq<nat>, learn: bool)
    requires SameInputs(n, r)
    ensures ActivationThrows(r, cols, learn) == ActivationThrows(n, cols, learn)
  {
    forall i | 0 <= i < |cols| ensures ColumnThrows(r, cols[i], learn) == ColumnThrows(n, cols[i], learn) {
      ColumnActivitySame(n, r, cols[i], learn, Rng(x => x, 0));
    }
  }

  /** The column loop throws exactly when one of the listed columns, read
      in the state the loop starts from, throws while learning. */
  lemma {:induction false} ActivateColumnsThrows(n: Net, m: nat, cols: seq<nat>, learn: bool, g: Rng)
    requires m < |n.matrices|
    ensures ActivateColumns(n, m, cols, learn, g).0.Threw? <==> ActivationThrows(n, cols, learn)
    decreases |cols|
  {
    if cols != [] {
      ActivationThrowsCons(n, cols, learn);
      if !LiveColumn(n, cols[0]) {
        ActivateColumnsThrows(n, m, cols[1..], learn, g);
      } else {
        var (a, g1) := ColumnActivity(n, cols[0], learn, g);
        ColumnActivityFacts(n, cols[0], learn, g);
        if !a.throws {
          var n1 := ApplyActivity(n, m, a);
          ApplyActivityFacts(n, m, a);
          ActivityFrameSameInputs(n, n1);
          ActivationThrowsSame(n, n1, cols[1..], learn);
          ActivateColumnsThrows(n1, m, cols[1..], learn, g1);
        }
      }
    }
  }

  /** Cell `c` is activated by one of the listed columns. */
  predicate ActivatedBy(n: Net, cols: seq<nat>, c: nat)
  {
    exists i :: 0 <= i < |cols| && ColumnActive(n, cols[i], c)
  }

  lemma ActivatedByCons(n: Net, cols: seq<nat>, c: nat)
    requires cols != []
    ensures ActivatedBy(n, cols, c) <==> ColumnActive(n, cols[0], c) || ActivatedBy(n, cols[1..], c)
  {
    if ActivatedBy(n, cols, c) && !ColumnActive(n, cols[0], c) {
      var i :| 0 <= i < |cols| && ColumnActive(n, cols[i], c);
      assert cols[1..][i - 1] == cols[i];
    }
    if ActivatedBy(n, cols[1..], c) {
      var i :| 0 <= i < |cols[1..]| && ColumnActive(n, cols[1..][i], c);
      assert cols[i + 1] == cols[1..][i];
    }
  }

  lemma ActivatedBySame(n: Net, r: Net, cols: seq<nat>)
    requires SameInputs(n, r)
    ensures forall c :: ActivatedBy(r, cols, c) == ActivatedBy(n, cols, c)
  {
    forall i | 0 <= i < |cols| ensures forall c :: ColumnActive(r, cols[i], c) == ColumnActive(n, cols[i], c) {
      ColumnActivitySame(n, r, cols[i], false, Rng(x => x, 0));
    }
  }

  /** One live column of the membership proof, with the loop's
      definitions kept out of sight: every appended cell was activated by
      a listed column and, when the rest of the loop ran to the end
      (`all`), every activated cell was appended. */
  lemma MembersStep(n: Net, n1: Net, r: Net, m: nat, cols: seq<nat>, a: Activity, all: bool)
    requires cols != [] && m < |n.matrices| && m < |n1.matrices| && m < |r.matrices|
    requires forall c :: c in a.active <==> ColumnActive(n, cols[0], c)
    requires n1.matrices[m].activeCells == n.matrices[m].activeCells + a.active
    requires SameInputs(n, n1)
    requires n1.matrices[m].activeCells <= r.matrices[m].activeCells
    requires forall c :: c in r.matrices[m].activeCells[|n1.matrices[m].activeCells|..] ==> ActivatedBy(n1, cols[1..], c)
    requires all ==> forall c :: ActivatedBy(n1, cols[1..], c) ==> c in r.matrices[m].activeCells[|n1.matrices[m].activeCells|..]
    ensures n.matrices[m].activeCells <= r.matrices[m].activeCells
    ensures forall c :: c in r.matrices[m].activeCells[|n.matrices[m].activeCells|..] ==> ActivatedBy(n, cols, c)
    ensures all ==> forall c :: ActivatedBy(n, cols, c) ==> c in r.matrices[m].activeCells[|n.matrices[m].activeCells|..]
  {
    var M := n.matrices[m];
    var M1 := n1.matrices[m];
    var R := r.matrices[m];
    ActivatedBySame(n, n1, cols[1..]);
    assert R.activeCells[|M.activeCells|..] == a.active + R.activeCells[|M1.activeCells|..];
    forall c ensures ActivatedBy(n, cols, c) <==> ColumnActive(n, cols[0], c) || ActivatedBy(n, cols[1..], c) {
      ActivatedByCons(n, cols, c);
    }
  }

  /** Every cell the column loop appends to matrix `m`'s active list is
      activated by a listed column and, unless the loop throws, every cell
      the listed columns activate is appended. */
  lemma {:induction false} ActivateColumnsMembers(n: Net, m: nat, cols: seq<nat>, learn: bool, g: Rng)
    requires m < |n.matrices|
    ensures var t := ActivateColumns(n, m, cols, learn, g).0; var M := n.matrices[m]; var R := t.net.matrices[m];
      && M.activeCells <= R.activeCells
      && (forall c :: c in R.activeCells[|M.activeCells|..] ==> ActivatedBy(n, cols, c))
      && (t.Returned? ==> forall c :: ActivatedBy(n, cols, c) ==> c in R.activeCells[|M.activeCells|..])
    decreases |cols|
  {
    if cols == [] {
    } else if !LiveColumn(n, cols[0]) {
      ActivateColumnsMembers(n, m, cols[1..], learn, g);
      forall c ensures ActivatedBy(n, cols, c) <==> ActivatedBy(n, cols[1..], c) {
        ActivatedByCons(n, cols, c);
      }
    } else {
      var t := ColumnActivity(n, cols[0], learn, g);
      var n1 := ApplyActivity(n, m, t.0);
      ColumnActivityFacts(n, cols[0], learn, g);
      ApplyActivityFacts(n, m, t.0);
      ActivityFrameSameInputs(n, n1);
      if t.0.throws {
        assert n1 == ActivateColumns(n, m, cols, learn, g).0.net;
        assert n1.matrices[m].activeCells[|n1.matrices[m].activeCells|..] == [];
        MembersStep(n, n1, n1, m, cols, t.0, false);
      } else {
        var u := ActivateColumns(n1, m, cols[1..], learn, t.1).0;
        assert u == ActivateColumns(n, m, cols, learn, g).0;
        ActivateColumnsMembers(n1, m, cols[1..], learn, t.1);
        MembersStep(n, n1, u.net, m, cols, t.0, u.Returned?);
      }
    }
  }

  /** Saving and clearing the active states leaves what column activation
      reads untouched. */
  lemma ResetActiveSame(n: Net, m: nat)
    ensures SameInputs(n, ResetActiveStates(n, m))
  {
    var r := ResetActiveStates(n, m);
    if m < |n.matrices| {
      forall i | 0 <= i < |n.segments| ensures r.segments[i].cellRx == n.segments[i].cellRx {
        if i in ReachedSegments(n.cells, n.synapses, n.matrices[m].activeCells) {
          assert r.segments[i] == Rotate(n.segments[i], n.matrices[m].params.historyLength);
        }
      }
    }
  }

  /** After `tmActivate` the layer's matrix has pushed its previous lists
      onto its histories. The call throws exactly when an active column
      throws while learning. Every cell on the matrix's active list is one
      the layer's active columns activate (a predicted cell, or any cell of
      a column with none predicted) and is flagged active, and unless the
      call throws every such cell is on the list. The learning list holds
      cells flagged learning and is empty when not learning. No other
      matrix changes. */
  lemma TmActivateFacts(n: Net, l: nat, learn: bool, g: Rng)
    requires l < |n.layers| && n.layers[l].cellMatrix < |n.matrices|
    ensures var t := TmActivate(n, l, learn, g).0; var r := t.net; var L := n.layers[l]; var m := L.cellMatrix;
      var M := n.matrices[m]; var R := r.matrices[m]; var h := M.params.historyLength;
      && (t.Threw? <==> ActivationThrows(n, L.activeColumns, learn))
      && |r.matrices| == |n.matrices| && |r.cells| == |n.cells|
      && R.activeCellHistory == PushFront(M.activeCellHistory, M.activeCells, h)
      && R.learningCellHistory == PushFront(M.learningCellHistory, M.learningCells, h)
      && R == M.(activeCells := R.activeCells, learningCells := R.learningCells,
                 activeCellHistory := R.activeCellHistory, learningCellHistory := R.learningCellHistory)
      && (forall c :: c in R.activeCells ==> ActivatedBy(n, L.activeColumns, c))
      && (t.Returned? ==> forall c :: ActivatedBy(n, L.activeColumns, c) ==> c in R.activeCells)
      && (forall c :: c in R.activeCells ==> c < |r.cells| && r.cells[c].active)
      && (forall c :: c in R.learningCells ==> c < |r.cells| && r.cells[c].learning)
      && (!learn ==> R.learningCells == [])
      && (forall i :: 0 <= i < |n.matrices| && i != m ==> r.matrices[i] == n.matrices[i])
      && r.synapses == n.synapses && r.columns == n.columns && r.layers == n.layers
      && r.timestep == n.timestep
  {
    var L := n.layers[l];
    var m := L.cellMatrix;
    var n0 := ResetActiveStates(n, m);
    var t := ActivateColumns(n0, m, L.activeColumns, learn, g).0;
    var r := t.net;
    assert t == TmActivate(n, l, learn, g).0;
    ResetActiveSame(n, m);
    ActivatedBySame(n, n0, L.activeColumns);
    ActivationThrowsSame(n, n0, L.activeColumns, learn);
    ActivateColumnsThrows(n0, m, L.activeColumns, learn, g);
    ActivateColumnsFrame(n0, m, L.activeColumns, learn, g);
    ActivateColumnsMembers(n0, m, L.activeColumns, learn, g);
    var R := r.matrices[m];
    assert ListsGrown(n0.matrices[m], R, r.cells);
    assert R.activeCells[|n0.matrices[m].activeCells|..] == R.activeCells;
    forall c | c in R.activeCells ensures c < |r.cells| && r.cells[c].active {
      var j :| 0 <= j < |R.activeCells| && R.activeCells[j] == c;
    }
    forall c | c in R.learningCells ensures c < |r.cells| && r.cells[c].learning {
      var j :| 0 <= j < |R.learningCells| && R.learningCells[j] == c;
    }
  }

  // Phase 2: predict.

  /** A column's best segments pushed onto their histories, truncated to
      `limit`, and cleared (lines 293-305). */
  function SaveBests(c: Column, limit: nat): Column
  {
    c.(bestDistalSegmentHistory := PushFront(c.bestDistalSegmentHistory, c.bestDistalSegment, limit),
       bestDistalSegment := None,
       bestApicalSegmentHistory := PushFront(c.bestApicalSegmentHistory, c.bestApicalSegment, limit),
       bestApicalSegment := None)
  }

  /** The loop of lines 290-306 over the layer's columns. A handle that
      names no column is skipped. */
  function SaveAllBests(n: Net, cols: seq<nat>, limit: nat): (r: Net)
    ensures |r.columns| == |n.columns| && r == n.(columns := r.columns)
    decreases |cols|
  {
    if cols == [] then n
    else if cols[0] >= |n.columns| then SaveAllBests(n, cols[1..], limit)
    else SaveAllBests(n.(columns := n.columns[cols[0] := SaveBests(n.columns[cols[0]], limit)]), cols[1..], limit)
  }

  /** `tmPredict(layer)` on layer `l`: the layer's matrix saves and clears
      its predictive states, every column of the layer saves and clears its
      best segments, and the matrix's active cells are transmitted at the
      controller's timestep. A handle that names no layer or matrix changes
      nothing. */
  function TmPredict(n: Net, l: nat): (r: Net)
    ensures SizesOf(r) == SizesOf(n) && r.layers == n.layers && r.timestep == n.timestep
  {
    if l >= |n.layers| || n.layers[l].cellMatrix >= |n.matrices| then n
    else
      var L := n.layers[l];
      var n1 := ResetPredictiveStates(n, L.cellMatrix);
      ActivateCellMatrix(SaveAllBests(n1, L.columns, L.params.historyLength), L.cellMatrix, n.timestep)
  }

  /** Saving the best segments touches nothing but the listed columns: each
      of them ends with no best segments, and one listed once has pushed
      its old best segments onto its histories. */
  lemma {:induction false} SaveAllBestsFacts(n: Net, cols: seq<nat>, limit: nat)
    ensures var r := SaveAllBests(n, cols, limit);
      && r == n.(columns := r.columns)
      && (forall i :: 0 <= i < |n.columns| && i !in cols ==> r.columns[i] == n.columns[i])
      && (forall i :: 0 <= i < |n.columns| && i in cols ==>
            r.columns[i].bestDistalSegment.None? && r.columns[i].bestApicalSegment.None?
            && r.columns[i] == n.columns[i].(bestDistalSegment := None, bestApicalSegment := None,
                 bestDistalSegmentHistory := r.columns[i].bestDistalSegmentHistory,
                 bestApicalSegmentHistory := r.columns[i].bestApicalSegmentHistory))
      && (Distinct(cols) ==> forall i :: 0 <= i < |n.columns| && i in cols ==> r.columns[i] == SaveBests(n.columns[i], limit))
    decreases |cols|
  {
    if cols != [] {
      var n1 := if cols[0] >= |n.columns| then n
                else n.(columns := n.columns[cols[0] := SaveBests(n.columns[cols[0]], limit)]);
      SaveAllBestsFacts(n1, cols[1..], limit);
      var r := SaveAllBests(n, cols, limit);
      assert r == SaveAllBests(n1, cols[1..], limit);
      forall i | 0 <= i < |n.columns| && i in cols
        ensures r.columns[i].bestDistalSegment.None? && r.columns[i].bestApicalSegment.None?
        ensures r.columns[i] == n.columns[i].(bestDistalSegment := None, bestApicalSegment := None,
                 bestDistalSegmentHistory := r.columns[i].bestDistalSegmentHistory,
                 bestApicalSegmentHistory := r.columns[i].bestApicalSegmentHistory)
      {
        if i != cols[0] { assert i in cols[1..]; }
      }
      if Distinct(cols) {
        forall i | 0 <= i < |n.columns| && i in cols ensures r.columns[i] == SaveBests(n.columns[i], limit) {
          if i == cols[0] {
            assert i !in cols[1..];
          } else {
            assert i in cols[1..];
            assert Distinct(cols[1..]);
          }
        }
      }
    }
  }

  lemma PushFrontOptBelow(h: seq<Option<nat>>, x: Option<nat>, limit: nat, bound: nat)
    requires OptHistoryBelow(h, bound) && OptBelow(x, bound)
    ensures OptHistoryBelow(PushFront(h, x, limit), bound)
  {
    var r := PushFront(h, x, limit);
    forall i | 0 <= i < |r| ensures OptBelow(r[i], bound) {
      if i > 0 { assert r[i] == r[1..][i - 1] == h[i - 1]; }
    }
  }

  /** Replacing columns by columns whose handles are valid keeps a net
      well formed: no registration mentions a column. */
  lemma ColumnsReplacedWellFormed(n: Net, r: Net)
    requires WellFormed(n) && r == n.(columns := r.columns) && |r.columns| == |n.columns|
    requires forall i :: 0 <= i < |r.columns| ==> ColumnOk(r.columns[i], SizesOf(n))
    ensures WellFormed(r)
  {
    assert SizesOf(r) == SizesOf(n);
  }

  lemma {:induction false} SaveAllBestsWellFormed(n: Net, cols: seq<nat>, limit: nat)
    requires WellFormed(n)
    ensures WellFormed(SaveAllBests(n, cols, limit))
    decreases |cols|
  {
    if cols != [] {
      if cols[0] >= |n.columns| {
        SaveAllBestsWellFormed(n, cols[1..], limit);
      } else {
        var k := cols[0];
        var C := n.columns[k];
        var n1 := n.(columns := n.columns[k := SaveBests(C, limit)]);
        var z := SizesOf(n);
        assert ColumnOk(C, z);
        PushFrontOptBelow(C.bestDistalSegmentHistory, C.bestDistalSegment, limit, z.segments);
        PushFrontOptBelow(C.bestApicalSegmentHistory, C.bestApicalSegment, limit, z.segments);
        forall i | 0 <= i < |n1.columns| ensures ColumnOk(n1.columns[i], z) {
          if i != k { assert ColumnOk(n.columns[i], z); }
        }
        ColumnsReplacedWellFormed(n, n1);
        SaveAllBestsWellFormed(n1, cols[1..], limit);
      }
    }
  }

  /** Clearing one matrix's predictive states leaves every other matrix's
      predictive list truthful: the cleared cells all belong to the
      cleared matrix. */
  lemma ResetPredictiveListed(n: Net, m: nat)
    requires PredictiveListed(n)
    ensures PredictiveListed(ResetPredictiveStates(n, m))
  {
  }

  /** The three steps of `tmPredict`, named. */
  lemma TmPredictSteps(n: Net, l: nat) returns (n1: Net, n2: Net)
    requires l < |n.layers| && n.layers[l].cellMatrix < |n.matrices|
    ensures var L := n.layers[l];
      && n1 == ResetPredictiveStates(n, L.cellMatrix)
      && n2 == SaveAllBests(n1, L.columns, L.params.historyLength)
      && TmPredict(n, l) == ActivateCellMatrix(n2, L.cellMatrix, n.timestep)
      && n2 == n1.(columns := n2.columns) && n1.columns == n.columns
  {
    var L := n.layers[l];
    n1 := ResetPredictiveStates(n, L.cellMatrix);
    n2 := SaveAllBests(n1, L.columns, L.params.historyLength);
    SaveAllBestsFacts(n1, L.columns, L.params.historyLength);
  }

  /** After `tmPredict` every column of the layer has dropped its old best
      segments, so any best segment it holds now was found by this
      transmission: a segment of the right kind on one of the column's own
      cells with at least `minThreshold` active synapses. A column listed
      once has pushed its old best segments onto its histories. */
  lemma TmPredictBests(n: Net, l: nat)
    requires l < |n.layers| && n.layers[l].cellMatrix < |n.matrices|
    ensures var r := TmPredict(n, l); var L := n.layers[l];
      var t := n.matrices[L.cellMatrix].params.minThreshold;
      && |r.columns| == |n.columns|
      && (forall i :: 0 <= i < |n.columns| && i in L.columns ==> ColumnQualified(r, i, t) && ColumnOwned(r, i))
      && (Distinct(L.columns) ==> forall i :: 0 <= i < |n.columns| && i in L.columns ==>
            && r.columns[i].bestDistalSegmentHistory == PushFront(n.columns[i].bestDistalSegmentHistory, n.columns[i].bestDistalSegment, L.params.historyLength)
            && r.columns[i].bestApicalSegmentHistory == PushFront(n.columns[i].bestApicalSegmentHistory, n.columns[i].bestApicalSegment, L.params.historyLength))
  {
    var L := n.layers[l];
    var m := L.cellMatrix;
    var n1, n2 := TmPredictSteps(n, l);
    var r := ActivateCellMatrix(n2, m, n.timestep);
    SaveAllBestsFacts(n1, L.columns, L.params.historyLength);
    ActivateCellMatrixKeeps(n2, m, n.timestep);
    assert n2.matrices[m].params == n.matrices[m].params;
    forall i | 0 <= i < |n.columns| && i in L.columns
      ensures ColumnQualified(r, i, n.matrices[m].params.minThreshold) && ColumnOwned(r, i)
      ensures r.columns[i].bestDistalSegmentHistory == n2.columns[i].bestDistalSegmentHistory
      ensures r.columns[i].bestApicalSegmentHistory == n2.columns[i].bestApicalSegmentHistory
    {
      assert ColumnQualified(n2, i, n.matrices[m].params.minThreshold) && ColumnOwned(n2, i);
      assert ColumnStep(n2.columns[i], r.columns[i]);
    }
  }

  /** After `tmPredict` the layer's matrix has pushed its old predictive
      list onto its history; no entity is created, handles stay valid and
      predictive lists stay truthful. */
  lemma TmPredictKeeps(n: Net, l: nat)
    requires l < |n.layers| && n.layers[l].cellMatrix < |n.matrices|
    ensures var r := TmPredict(n, l); var m := n.layers[l].cellMatrix; var M := n.matrices[m];
      && SizesOf(r) == SizesOf(n) && r.layers == n.layers && r.synapses == n.synapses
      && r.timestep == n.timestep
      && r.matrices[m].predictiveCellHistory == PushFront(M.predictiveCellHistory, M.predictiveCells, M.params.historyLength)
      && r.matrices[m].params == M.params
      && (WellFormed(n) ==> WellFormed(r))
      && (PredictiveListed(n) ==> PredictiveListed(r))
  {
    var L := n.layers[l];
    var m := L.cellMatrix;
    var n1, n2 := TmPredictSteps(n, l);
    var r := ActivateCellMatrix(n2, m, n.timestep);
    ActivateCellMatrixKeeps(n2, m, n.timestep);
    assert MatrixStep(n2.matrices[m], r.matrices[m]);
    if WellFormed(n) {
      ResetPredictiveStatesWellFormed(n, m);
      SaveAllBestsWellFormed(n1, L.columns, L.params.historyLength);
    }
    if PredictiveListed(n) {
      ResetPredictiveListed(n, m);
      assert PredictiveListed(n2);
    }
  }

  // Phase 3 and the controller entry points.

  /** `trainCellMatrix(tx, rx, kind)` as called from the controller, where a
      null or missing matrix is a `TypeError`: the transmitting matrix is
      read first, and the receiving one only when the transmitting matrix
      has an active history (line 411). */
  function TrainOrThrow(n: Net, tx: Option<nat>, rx: nat, kind: SegmentType, g: Rng): (r: (Outcome, Rng))
  {
    if tx.None? || tx.value >= |n.matrices| then (Threw(n), g)
    else if |n.matrices[tx.value].activeCellHistory| > 0 && rx >= |n.matrices| then (Threw(n), g)
    else
      var t := TrainCellMatrix(n, tx.value, rx, kind, g);
      (Returned(t.0), t.1)
  }

  /** `tmLearn(layer)` on layer `l` (lines 319-322): the layer's matrix
      learns distal segments from its distal input. */
  function TmLearn(n: Net, l: nat, g: Rng): (r: (Outcome, Rng))
  {
    if l >= |n.layers| then (Threw(n), g)
    else TrainOrThrow(n, n.layers[l].distalInput, n.layers[l].cellMatrix, Distal, g)
  }

  /** `temporalMemory(layerIdx, learn)` (lines 177-194): the step counter
      advances, then activation, prediction and, when learning, distal
      learning. A throw in `tmActivate` ends the step there. */
  function TemporalMemory(n: Net, l: nat, learn: bool, g: Rng): (r: (Outcome, Rng))
  {
    var a := TmActivate(n.(timestep := n.timestep + 1), l, learn, g);
    if a.0.Threw? then a
    else
      var n3 := TmPredict(a.0.net, l);
      if learn then TmLearn(n3, l, a.1) else (Returned(n3), a.1)
  }

  /** The loop of lines 205-207: the layer's matrix is the transmitting
      side, each proximal input learns apical segments from it; the first
      `TypeError` ends the loop. */
  function TrainInputs(n: Net, m: nat, inputs: seq<nat>, g: Rng): (r: (Outcome, Rng))
    decreases |inputs|
  {
    if inputs == [] then (Returned(n), g)
    else
      var t := TrainOrThrow(n, Some(m), inputs[0], Apical, g);
      if t.0.Threw? then t else TrainInputs(t.0.net, m, inputs[1..], t.1)
  }

  /** `inputMemory(layerIdx)` (lines 201-208). */
  function InputMemory(n: Net, l: nat, g: Rng): (r: (Outcome, Rng))
  {
    if l >= |n.layers| then (Threw(n), g)
    else TrainInputs(n, n.layers[l].cellMatrix, n.layers[l].proximalInputs, g)
  }

  // What the entry points keep.

  /** Raising flags and appending flagged cells keeps a net well formed. */
  lemma ActivityFrameWellFormed(n: Net, r: Net)
    requires ActivityFrame(n, r) && WellFormed(n)
    ensures WellFormed(r)
  {
    var z := SizesOf(n);
    assert SizesOf(r) == z;
    forall i | 0 <= i < |r.cells| ensures CellOk(r.cells[i], z) && i in r.matrices[r.cells[i].matrix].cells {
      assert CellOk(n.cells[i], z);
      assert FlagsRaised(n.cells[i], r.cells[i]);
    }
    forall i | 0 <= i < |r.matrices| ensures MatrixOk(r.matrices[i], z) {
      var M := n.matrices[i];
      var R := r.matrices[i];
      assert MatrixOk(M, z) && ListsGrown(M, R, r.cells);
      forall j | 0 <= j < |R.activeCells| ensures R.activeCells[j] < z.cells {
        if j < |M.activeCells| { assert R.activeCells[j] == M.activeCells[j]; }
      }
      forall j | 0 <= j < |R.learningCells| ensures R.learningCells[j] < z.cells {
        if j < |M.learningCells| { assert R.learningCells[j] == M.learningCells[j]; }
      }
    }
    forall i | 0 <= i < |r.segments| && r.segments[i].cellRx.Some?
      ensures i in SegmentsOfKind(r.cells[r.segments[i].cellRx.value], r.segments[i].kind)
    {
      assert FlagsRaised(n.cells[n.segments[i].cellRx.value], r.cells[n.segments[i].cellRx.value]);
    }
    forall i | 0 <= i < |r.synapses| ensures i in r.cells[r.synapses[i].cellTx].axonSynapses {
      assert FlagsRaised(n.cells[n.synapses[i].cellTx], r.cells[n.synapses[i].cellTx]);
    }
  }

  lemma ResetActiveListed(n: Net, m: nat)
    requires PredictiveListed(n)
    ensures PredictiveListed(ResetActiveStates(n, m))
  {
  }

  /** Raising active and learning flags leaves predictive lists truthful. */
  lemma ActivityFrameListed(n: Net, r: Net)
    requires ActivityFrame(n, r) && PredictiveListed(n)
    ensures PredictiveListed(r)
  {
    forall k, j | 0 <= k < |r.matrices| && 0 <= j < |r.matrices[k].predictiveCells|
      ensures r.cells[r.matrices[k].predictiveCells[j]].predictive
      ensures r.cells[r.matrices[k].predictiveCells[j]].matrix == k
    {
      var c := n.matrices[k].predictiveCells[j];
      assert FlagsRaised(n.cells[c], r.cells[c]);
    }
  }

  /** `tmActivate`, whether it returns or throws, keeps a net well formed
      and changes no synapse, column or layer. */
  lemma TmActivateKeeps(n: Net, l: nat, learn: bool, g: Rng)
    ensures var r := TmActivate(n, l, learn, g).0.net;
      && SizesOf(r) == SizesOf(n) && r.synapses == n.synapses && r.columns == n.columns
      && r.layers == n.layers && r.timestep == n.timestep
      && (WellFormed(n) ==> WellFormed(r))
      && (PredictiveListed(n) ==> PredictiveListed(r))
  {
    if l < |n.layers| && n.layers[l].cellMatrix < |n.matrices| {
      var m := n.layers[l].cellMatrix;
      var n0 := ResetActiveStates(n, m);
      var r := ActivateColumns(n0, m, n.layers[l].activeColumns, learn, g).0.net;
      ActivateColumnsFrame(n0, m, n.layers[l].activeColumns, learn, g);
      if WellFormed(n) {
        ResetActiveStatesWellFormed(n, m);
        ActivityFrameWellFormed(n0, r);
      }
      if PredictiveListed(n) {
        ResetActiveListed(n, m);
        ActivityFrameListed(n0, r);
      }
    }
  }

  /** A call into training throws exactly when the source dereferences a
      missing matrix, and otherwise keeps the training invariants under the
      receiving matrix's parameters. */
  lemma TrainOrThrowFacts(n: Net, tx: Option<nat>, rx: nat, kind: SegmentType, g: Rng)
    ensures var r := TrainOrThrow(n, tx, rx, kind, g).0;
      && (r.Threw? <==> tx.None? || tx.value >= |n.matrices|
                        || (|n.matrices[tx.value].activeCellHistory| > 0 && rx >= |n.matrices|))
      && (r.Threw? || rx >= |n.matrices| ==> r.net == n)
      && (rx < |n.matrices| ==> TrainKeeps(n, r.net, n.matrices[rx].params))
  {
    if rx < |n.matrices| {
      TrainKeepsRefl(n, n.matrices[rx].params);
      if tx.Some? && tx.value < |n.matrices| {
        TrainCellMatrixKeeps(n, tx.value, rx, kind, g);
      }
    }
  }

  /** Every proximal input that names a matrix grows synapses at a
      permanence within 0..100. */
  predicate SeedsInRange(n: Net, inputs: seq<nat>)
  {
    forall i :: 0 <= i < |inputs| && inputs[i] < |n.matrices| ==> n.matrices[inputs[i]].params.initialPermanence <= 100
  }

  /** Training every input, whether the loop ends or throws: only what
      training may change changes, handles stay valid, permanences stay in
      range when every seed permanence is, and the loop throws exactly when
      the layer's matrix is missing, or has an active history and some
      input names no matrix. */
  lemma {:induction false} TrainInputsFacts(n: Net, m: nat, inputs: seq<nat>, g: Rng)
    ensures var r := TrainInputs(n, m, inputs, g).0;
      && TrainingFrame(n, r.net)
      && (WellFormed(n) ==> WellFormed(r.net))
      && (PermanencesInRange(n) && SeedsInRange(n, inputs) ==> PermanencesInRange(r.net))
      && (r.Threw? <==> inputs != [] && (m >= |n.matrices| || (|n.matrices[m].activeCellHistory| > 0
                          && exists i :: 0 <= i < |inputs| && inputs[i] >= |n.matrices|)))
    decreases |inputs|
  {
    var r := TrainInputs(n, m, inputs, g).0;
    if inputs != [] {
      var t := TrainOrThrow(n, Some(m), inputs[0], Apical, g);
      TrainOrThrowFacts(n, Some(m), inputs[0], Apical, g);
      if t.0.Threw? {
        assert r == t.0;
      } else {
        var n1 := t.0.net;
        assert r == TrainInputs(n1, m, inputs[1..], t.1).0;
        if inputs[0] < |n.matrices| {
          assert TrainKeeps(n, n1, n.matrices[inputs[0]].params);
        } else {
          assert n1 == n;
        }
        TrainInputsFacts(n1, m, inputs[1..], t.1);
        TrainingFrameTrans(n, n1, r.net);
        assert n1.matrices == n.matrices;
        if (exists i :: 0 <= i < |inputs| && inputs[i] >= |n.matrices|) && |n.matrices[m].activeCellHistory| > 0 {
          var i :| 0 <= i < |inputs| && inputs[i] >= |n.matrices|;
          assert i != 0;
          assert inputs[1..][i - 1] >= |n.matrices|;
        }
        if exists i :: 0 <= i < |inputs[1..]| && inputs[1..][i] >= |n.matrices| {
          var i :| 0 <= i < |inputs[1..]| && inputs[1..][i] >= |n.matrices|;
          assert inputs[i + 1] >= |n.matrices|;
        }
      }
    }
  }

  /** `inputMemory` on layer `l`: only what training may change changes,
      handles stay valid, permanences stay in range when every input's seed
      permanence is, and the call throws exactly when there is no such
      layer, or its matrix is missing, or its matrix has an active history
      and some proximal input names no matrix. */
  lemma InputMemoryFacts(n: Net, l: nat, g: Rng)
    ensures var r := InputMemory(n, l, g).0;
      && (l >= |n.layers| ==> r == Threw(n))
      && (l < |n.layers| ==>
            var L := n.layers[l];
            && TrainingFrame(n, r.net)
            && (WellFormed(n) ==> WellFormed(r.net))
            && (PermanencesInRange(n) && SeedsInRange(n, L.proximalInputs) ==> PermanencesInRange(r.net))
            && (r.Threw? <==>
                  (L.proximalInputs != [] && (L.cellMatrix >= |n.matrices|
                     || (|n.matrices[L.cellMatrix].activeCellHistory| > 0
                         && exists i :: 0 <= i < |L.proximalInputs| && L.proximalInputs[i] >= |n.matrices|)))))
  {
    if l < |n.layers| {
      TrainInputsFacts(n, n.layers[l].cellMatrix, n.layers[l].proximalInputs, g);
    }
  }

  /** Training keeps predictive lists truthful: it changes no matrix and no
      cell's predictive flag. */
  lemma TrainingFrameListed(n: Net, r: Net)
    requires TrainingFrame(n, r) && PredictiveListed(n)
    ensures PredictiveListed(r)
  {
    forall k, j | 0 <= k < |r.matrices| && 0 <= j < |r.matrices[k].predictiveCells|
      ensures r.cells[r.matrices[k].predictiveCells[j]].predictive
      ensures r.cells[r.matrices[k].predictiveCells[j]].matrix == k
    {
      var c := n.matrices[k].predictiveCells[j];
      assert CellGrown(n.cells[c], r.cells[c]);
    }
  }

  /** Training keeps a column's best segments qualified and owned: it
      changes no column, and a segment keeps its kind, receiving cell and
      active synapses while a cell keeps its column. */
  lemma TrainingFrameBests(n: Net, r: Net, i: nat, t: nat)
    requires TrainingFrame(n, r) && i < |n.columns|
    requires ColumnQualified(n, i, t) && ColumnOwned(n, i)
    ensures ColumnQualified(r, i, t) && ColumnOwned(r, i)
  {
    var C := n.columns[i];
    if C.bestDistalSegment.Some? {
      var b := C.bestDistalSegment.value;
      assert SegmentGrown(n.segments[b], r.segments[b]);
      assert CellGrown(n.cells[n.segments[b].cellRx.value], r.cells[n.segments[b].cellRx.value]);
    }
    if C.bestApicalSegment.Some? {
      var b := C.bestApicalSegment.value;
      assert SegmentGrown(n.segments[b], r.segments[b]);
      assert CellGrown(n.cells[n.segments[b].cellRx.value], r.cells[n.segments[b].cellRx.value]);
    }
  }

  /** `tmPredict` leaves the active side of the net alone: the layer's
      matrix changes only its predictive list and history, and no cell's
      active or learning flag changes. */
  lemma TmPredictFrame(n: Net, l: nat)
    requires l < |n.layers| && n.layers[l].cellMatrix < |n.matrices|
    ensures var r := TmPredict(n, l); var m := n.layers[l].cellMatrix; var M := n.matrices[m]; var R := r.matrices[m];
      && |r.cells| == |n.cells| && |r.matrices| == |n.matrices|
      && R == M.(predictiveCells := R.predictiveCells, predictiveCellHistory := R.predictiveCellHistory)
      && (forall i :: 0 <= i < |n.cells| ==> r.cells[i].active == n.cells[i].active && r.cells[i].learning == n.cells[i].learning)
  {
    var L := n.layers[l];
    var m := L.cellMatrix;
    var n1, n2 := TmPredictSteps(n, l);
    var r := ActivateCellMatrix(n2, m, n.timestep);
    ActivateCellMatrixKeeps(n2, m, n.timestep);
    assert MatrixStep(n2.matrices[m], r.matrices[m]);
    forall i | 0 <= i < |n.cells| ensures r.cells[i].active == n.cells[i].active && r.cells[i].learning == n.cells[i].learning {
      assert CellStep(n2.cells[i], r.cells[i]);
    }
  }

  /** The phases of `temporalMemory` on a layer with a matrix, named. */
  lemma TemporalMemorySteps(n: Net, l: nat, learn: bool, g: Rng) returns (n1: Net, a: (Outcome, Rng), n3: Net)
    requires l < |n.layers| && n.layers[l].cellMatrix < |n.matrices|
    ensures n1 == n.(timestep := n.timestep + 1) && a == TmActivate(n1, l, learn, g) && n3 == TmPredict(a.0.net, l)
    ensures TemporalMemory(n, l, learn, g) ==
      if a.0.Threw? then a else if learn then TmLearn(n3, l, a.1) else (Returned(n3), a.1)
    ensures SizesOf(n3) == SizesOf(n) && n3.layers == n.layers && n3.timestep == n.timestep + 1
  {
    n1 := n.(timestep := n.timestep + 1);
    a := TmActivate(n1, l, learn, g);
    n3 := TmPredict(a.0.net, l);
  }

  /** Activation and prediction change no synapse and no matrix parameter. */
  lemma ActivatePredictSynapses(n: Net, l: nat, learn: bool, g: Rng)
    requires l < |n.layers| && n.layers[l].cellMatrix < |n.matrices|
    ensures var n3 := TmPredict(TmActivate(n, l, learn, g).0.net, l);
      && n3.synapses == n.synapses
      && n3.matrices[n.layers[l].cellMatrix].params == n.matrices[n.layers[l].cellMatrix].params
  {
    TmActivateKeeps(n, l, learn, g);
    TmPredictKeeps(TmActivate(n, l, learn, g).0.net, l);
  }

  /** `temporalMemory` always advances the step counter by one, and throws
      exactly when there is no such layer, the layer has no matrix, an
      active column cannot name its learning cell, or it learns without a
      distal input matrix. */
  lemma TemporalMemoryOutcome(n: Net, l: nat, learn: bool, g: Rng)
    ensures var r := TemporalMemory(n, l, learn, g).0;
      && r.net.timestep == n.timestep + 1
      && (r.Threw? <==>
            (l >= |n.layers| || n.layers[l].cellMatrix >= |n.matrices|
             || ActivationThrows(n, n.layers[l].activeColumns, learn)
             || (learn && (n.layers[l].distalInput.None? || n.layers[l].distalInput.value >= |n.matrices|))))
  {
    if l < |n.layers| && n.layers[l].cellMatrix < |n.matrices| {
      var n1, a, n3 := TemporalMemorySteps(n, l, learn, g);
      TmActivateFacts(n1, l, learn, g);
      assert SameInputs(n, n1);
      ActivationThrowsSame(n, n1, n.layers[l].activeColumns, learn);
      if learn && a.0.Returned? {
        TrainOrThrowFacts(n3, n.layers[l].distalInput, n.layers[l].cellMatrix, Distal, a.1);
      }
    }
  }

  /** Advancing the step counter touches no handle. */
  lemma TickKeeps(n: Net)
    ensures var n1 := n.(timestep := n.timestep + 1);
      && (WellFormed(n) ==> WellFormed(n1))
      && (PredictiveListed(n) ==> PredictiveListed(n1))
      && (PermanencesInRange(n) ==> PermanencesInRange(n1))
  {
  }

  /** `temporalMemory` keeps a net well formed. */
  lemma TemporalMemoryWellFormed(n: Net, l: nat, learn: bool, g: Rng)
    requires WellFormed(n)
    ensures WellFormed(TemporalMemory(n, l, learn, g).0.net)
  {
    TickKeeps(n);
    if l < |n.layers| && n.layers[l].cellMatrix < |n.matrices| {
      var n1, a, n3 := TemporalMemorySteps(n, l, learn, g);
      TmActivateKeeps(n1, l, learn, g);
      TmPredictKeeps(a.0.net, l);
      if learn {
        TrainOrThrowFacts(n3, n.layers[l].distalInput, n.layers[l].cellMatrix, Distal, a.1);
      }
    }
  }

  /** `temporalMemory` keeps every matrix's predictive list truthful. */
  lemma TemporalMemoryListed(n: Net, l: nat, learn: bool, g: Rng)
    requires PredictiveListed(n)
    ensures PredictiveListed(TemporalMemory(n, l, learn, g).0.net)
  {
    TickKeeps(n);
    if l < |n.layers| && n.layers[l].cellMatrix < |n.matrices| {
      var n1, a, n3 := TemporalMemorySteps(n, l, learn, g);
      TmActivateKeeps(n1, l, learn, g);
      TmPredictKeeps(a.0.net, l);
      if learn {
        TrainOrThrowFacts(n3, n.layers[l].distalInput, n.layers[l].cellMatrix, Distal, a.1);
        TrainingFrameListed(n3, TmLearn(n3, l, a.1).0.net);
      }
    }
  }

  /** Distal learning on a layer whose matrix seeds permanences in range
      keeps every permanence in 0..100. */
  lemma TmLearnPermanences(n: Net, l: nat, g: Rng)
    requires PermanencesInRange(n)
    requires l < |n.layers| && n.layers[l].cellMatrix < |n.matrices|
    requires n.matrices[n.layers[l].cellMatrix].params.initialPermanence <= 100
    ensures PermanencesInRange(TmLearn(n, l, g).0.net)
  {
    TrainOrThrowFacts(n, n.layers[l].distalInput, n.layers[l].cellMatrix, Distal, g);
  }

  /** `temporalMemory` keeps permanences within 0..100 when the layer's
      matrix seeds new synapses within that range. */
  lemma TemporalMemoryPermanences(n: Net, l: nat, learn: bool, g: Rng)
    requires PermanencesInRange(n)
    requires l < |n.layers| && n.layers[l].cellMatrix < |n.matrices| ==>
      n.matrices[n.layers[l].cellMatrix].params.initialPermanence <= 100
    ensures PermanencesInRange(TemporalMemory(n, l, learn, g).0.net)
  {
    TickKeeps(n);
    if l < |n.layers| && n.layers[l].cellMatrix < |n.matrices| {
      var n1, a, n3 := TemporalMemorySteps(n, l, learn, g);
      TmActivateKeeps(n1, l, learn, g);
      ActivatePredictSynapses(n1, l, learn, g);
      if learn {
        TmLearnPermanences(n3, l, a.1);
      }
    }
  }

  /** The lists of the layer's matrix after activation and, unless an
      active column throws, prediction. */
  ghost predicate ListsAfterStep(n: Net, l: nat, learn: bool, r: Net)
    requires l < |n.layers| && n.layers[l].cellMatrix < |n.matrices|
  {
    var L := n.layers[l]; var m := L.cellMatrix;
    var M := n.matrices[m]; var h := M.params.historyLength;
    var threw := ActivationThrows(n, L.activeColumns, learn);
    && |r.matrices| == |n.matrices| && |r.cells| == |n.cells|
    && var R := r.matrices[m];
    && R.activeCellHistory == PushFront(M.activeCellHistory, M.activeCells, h)
    && R.learningCellHistory == PushFront(M.learningCellHistory, M.learningCells, h)
    && R.predictiveCellHistory == (if threw then M.predictiveCellHistory
                                   else PushFront(M.predictiveCellHistory, M.predictiveCells, h))
    && (forall c :: c in R.activeCells ==> ActivatedBy(n, L.activeColumns, c))
    && (!threw ==> forall c :: ActivatedBy(n, L.activeColumns, c) ==> c in R.activeCells)
    && (forall c :: c in R.activeCells ==> c < |r.cells| && r.cells[c].active)
    && (!learn ==> R.learningCells == [])
  }

  /** The lists after activation, and after prediction when activation
      returns. */
  lemma ActivatePredictLists(n: Net, l: nat, learn: bool, g: Rng)
    requires l < |n.layers| && n.layers[l].cellMatrix < |n.matrices|
    ensures var t := TmActivate(n.(timestep := n.timestep + 1), l, learn, g).0;
      ListsAfterStep(n, l, learn, if t.Threw? then t.net else TmPredict(t.net, l))
  {
    var L := n.layers[l];
    var n1 := n.(timestep := n.timestep + 1);
    var t := TmActivate(n1, l, learn, g).0;
    TmActivateFacts(n1, l, learn, g);
    assert SameInputs(n, n1);
    ActivatedBySame(n, n1, L.activeColumns);
    ActivationThrowsSame(n, n1, L.activeColumns, learn);
    if t.Returned? {
      TmPredictFrame(t.net, l);
      TmPredictKeeps(t.net, l);
    }
  }

  /** Training keeps the lists: it changes no matrix and clears no active flag. */
  lemma TrainingFrameLists(n: Net, l: nat, learn: bool, r: Net, r': Net)
    requires l < |n.layers| && n.layers[l].cellMatrix < |n.matrices|
    requires ListsAfterStep(n, l, learn, r) && TrainingFrame(r, r')
    ensures ListsAfterStep(n, l, learn, r')
  {
    var m := n.layers[l].cellMatrix;
    forall c | c in r'.matrices[m].activeCells ensures c < |r'.cells| && r'.cells[c].active {
      assert CellGrown(r.cells[c], r'.cells[c]);
    }
  }

  /** After a `temporalMemory` step, whether it returns or throws, the
      layer's matrix has pushed its previous active and learning lists onto
      their histories, and its previous predictive list too unless an
      active column threw. Every cell on its active list is one the layer's
      active columns activate (a predicted cell, or any cell of a column
      with none predicted) and is flagged active, and unless an active
      column threw every such cell is on the list; without learning its
      learning list is empty. */
  lemma TemporalMemoryLists(n: Net, l: nat, learn: bool, g: Rng)
    requires l < |n.layers| && n.layers[l].cellMatrix < |n.matrices|
    ensures ListsAfterStep(n, l, learn, TemporalMemory(n, l, learn, g).0.net)
  {
    var n1, a, n3 := TemporalMemorySteps(n, l, learn, g);
    ActivatePredictLists(n, l, learn, g);
    if learn && a.0.Returned? {
      TrainOrThrowFacts(n3, n.layers[l].distalInput, n.layers[l].cellMatrix, Distal, a.1);
      TrainingFrameLists(n, l, learn, n3, TemporalMemory(n, l, learn, g).0.net);
    }
  }

  /** After a `temporalMemory` step in which no active column throws,
      every column of the layer holds only best segments found by this
      step's transmission: segments of the right kind on the column's own
      cells with at least `minThreshold` active synapses. A column listed
      once has pushed its previous best segments onto its histories. When
      an active column throws, no column changes. */
  lemma TemporalMemoryBests(n: Net, l: nat, learn: bool, g: Rng)
    requires l < |n.layers| && n.layers[l].cellMatrix < |n.matrices|
    ensures var r := TemporalMemory(n, l, learn, g).0.net; var L := n.layers[l];
      var t := n.matrices[L.cellMatrix].params.minThreshold;
      && |r.columns| == |n.columns|
      && (ActivationThrows(n, L.activeColumns, learn) ==> r.columns == n.columns)
      && (!ActivationThrows(n, L.activeColumns, learn) ==>
            && (forall i :: 0 <= i < |n.columns| && i in L.columns ==> ColumnQualified(r, i, t) && ColumnOwned(r, i))
            && (Distinct(L.columns) ==> forall i :: 0 <= i < |n.columns| && i in L.columns ==>
                  && r.columns[i].bestDistalSegmentHistory == PushFront(n.columns[i].bestDistalSegmentHistory, n.columns[i].bestDistalSegment, L.params.historyLength)
                  && r.columns[i].bestApicalSegmentHistory == PushFront(n.columns[i].bestApicalSegmentHistory, n.columns[i].bestApicalSegment, L.params.historyLength)))
  {
    var L := n.layers[l];
    var m := L.cellMatrix;
    var n1, a, n3 := TemporalMemorySteps(n, l, learn, g);
    TmActivateKeeps(n1, l, learn, g);
    TmActivateFacts(n1, l, learn, g);
    assert SameInputs(n, n1);
    ActivationThrowsSame(n, n1, L.activeColumns, learn);
    if a.0.Returned? {
      TmPredictBests(a.0.net, l);
      var r := TemporalMemory(n, l, learn, g).0.net;
      if learn {
        TrainOrThrowFacts(n3, L.distalInput, m, Distal, a.1);
        forall i | 0 <= i < |n.columns| && i in L.columns
          ensures ColumnQualified(r, i, n.matrices[m].params.minThreshold) && ColumnOwned(r, i)
        {
          TrainingFrameBests(n3, r, i, n.matrices[m].params.minThreshold);
        }
      }
    }
  }
}
