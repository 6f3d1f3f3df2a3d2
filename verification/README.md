# htm.js core in Dafny

This project models the core of htm.js, a Hierarchical Temporal Memory engine. The engine keeps populations of binary-state cells grouped into columns. Each cell has dendrite segments, and each segment has synapses with integer permanences in 0..100. A controller runs three operations on this graph:

- **Spatial pooling** feeds sparse input patterns (SDRs) through the columns' proximal synapses, picks the best-scoring columns, and optionally reinforces their synapses.
- **Temporal memory** runs three phases:
  - activate: predicted cells fire; unpredicted columns burst and choose a learning cell;
  - predict: activity travels along axons, cells become predictive, and each column remembers its best matching segment;
  - learn: segments are reinforced, punished or grown from the cell histories one step back.
- **Input memory** trains the input cells' apical segments against a layer's activity.

The object graph is modelled as an index arena (module `Arena`). One immutable `Net` value holds sequences of cells, segments, synapses, columns, cell matrices and layers, plus the controller's step counter:

- Every reference in the source becomes a `nat` handle.
- Every nullable reference becomes an `Option<nat>`.
- Every JavaScript mutation becomes a function from `Net` to `Net`.

`Math.random()` becomes an injected generator: `Base.Rng` is a function from draw number to `nat`, plus a counter. `Base.Roll(g, n)` plays `Math.floor(Math.random() * n)`. Every property below holds for every generator.

Modules follow the source files:

- `Construct`: the `Synapse`, `Segment`, `Cell`, `Column` and `CellMatrix` constructors.
- `LayerBuild`: the `Layer` constructor and `addColumn`.
- `CellMatrixOps`: `resetActiveStates` and `resetPredictiveStates`.
- `Sampling`: `randomIndexes`, plus the two cyclic arg-min scans.
- `Selection`: the top-k column selection.
- `Activation`: `activateCellMatrix`.
- `SpatialPooler`: `spatialPooling`.
- `Training`: `trainSegment` and `trainCellMatrix`.
- `TemporalMemory`: `tmActivate`, `tmPredict`, `tmLearn`, `temporalMemory` and `inputMemory`.

A call that raises a `TypeError` at its entry ends in `Arena.Outcome.Threw` and carries the net as the exception leaves it; a normal return is `Returned`. Examples are a layer index that names no layer, a layer with no distal input when learning, and the chained reset described under Findings. `tmActivate` can also throw part-way through its column loop. This happens when a bursting, learning column cannot name its learning cell: the column has no cells and no best segment, or its best segment has no receiving cell. The step then ends with the earlier columns' activity in place.

## Source behaviour worth noting

- **Active column count.** The source computes it with `parseInt` of a float product, which truncates rather than rounds.
- **Least-recently-used eviction.** `trainSegment` computes the index of the least recently used segment, then never removes that segment. A cell can therefore exceed `maxSegmentsPerCell`. `Training.LruChoice` computes the index; only its draw of the generator has an effect.
- **Best-segment comparison.** A candidate beats the incumbent best segment if it has more connected synapses OR more active synapses. This is not a tie-break: two segments can each beat the other (`Activation.OutmatchesIsNotAnOrder`).
- **Column scores.** `spatialPooling` resets them at its start, not at its end.
- **Timestep.** The step counter is the controller's single counter. Spatial pooling transmits at counter + 1, and `temporalMemory` increments the counter first.
- **Temporal pooling.** The modelled source files contain no persistence, excitation or decay.

## Model

| member | source | states |
|---|---|---|
| Base.Roll | htm.controller.js:630 | A draw scaled to `n` is below `n` (0 when `n` is 0), and each draw consumes exactly one value of the generator |
| Base.PushFrontBounded | prototypes/cellmatrix.prototype.js:27-30 | Saving to a history puts the new entry first and keeps at most `historyLength` entries: the older ones follow in order and the oldest is dropped on overflow |
| Arena.Reinforce | htm.controller.js:155-158 | An increment saturates at 100: an in-range permanence stays in range, does not decrease, and grows by exactly the increment unless it hits the cap |
| Arena.Degrade | htm.controller.js:160-163 | A decrement saturates at 0: an in-range permanence stays in range, does not increase, and drops by exactly the decrement unless it hits the floor |
| Arena.SetPermanence | htm.controller.js:155 | Assigning one synapse's permanence changes that field of that synapse and nothing else, and keeps all permanences in 0..100 when the new value is |
| Sampling.RandomIndexes | htm.controller.js:601-638 | `randomIndexes` returns `min(resultCount, length)` distinct indexes below `length`; asking for at least `length` gives a permutation of `0..length-1`; in ordered mode the result is a cyclic run from a random start |
| Sampling.Pick | htm.controller.js:621-635 | The unordered branch draws without replacement: the picks are a sub-multiset of the pool, all of it when as many are requested as it holds, and distinct when the pool is |
| Sampling.RemoveAtMultiset | htm.controller.js:634 | `splice(i, 1)` removes exactly the element at `i` and keeps every other one |
| Sampling.OrderedRunIsCyclic | htm.controller.js:609-620 | The ordered branch yields `(start + j) mod length` at position `j` |
| Sampling.CyclicRunDistinct | htm.controller.js:613-620 | Within one lap the ordered run never repeats an index |
| Sampling.CyclicLapIsPermutation | htm.controller.js:613-620 | A full lap of the ordered run visits every index exactly once |
| Sampling.FewestFrom | htm.controller.js:250-262 | The scan picks a slot with the smallest key, and among those the first met going round from the random start |
| Sampling.LeastRecentlyUsed | htm.controller.js:573-585 | The least-recently-used scan picks a segment with the smallest `lastUsedTimestep`, and among those the first met going round from the random start |
| Construct.NewSynapse | prototypes/synapse.prototype.js:8-17 | A new synapse is appended with the given ends and permanence, and is registered on its segment's synapse list and its transmitting cell's axon; nothing else changes |
| Construct.NewSynapseWellFormed | prototypes/synapse.prototype.js:15-16 | Creating a synapse between existing entities keeps every handle valid and every back-reference in place |
| Construct.NewSegment | prototypes/segment.prototype.js:8-35 | A new segment starts empty and unused, and is registered on its receiving cell's list for its kind, and on no other list |
| Construct.NewSegmentWellFormed | prototypes/segment.prototype.js:26-34 | Creating a segment keeps the net well formed |
| Construct.NewCell | prototypes/cell.prototype.js:10-33 | A new cell has `x` defaulting to its index and `y` to 0, no synapses or segments, all flags off, and is appended to its matrix's cell list |
| Construct.NewCellWellFormed | prototypes/cell.prototype.js:10-33 | Creating a cell keeps the net well formed |
| Construct.NewCellMatrix | prototypes/cellmatrix.prototype.js:7-18 | A new matrix holds the given cells (or none) and empty current lists and histories |
| Construct.NewColumnFacts | prototypes/column.prototype.js:6-36 | A new column owns a fresh proximal segment with no receiving cell, and `cellsPerColumn` new cells with indexes `cellIndex + c`, coordinates `(index, c)`, in the layer's matrix |
| Construct.AddColumnCellsFacts | prototypes/column.prototype.js:31-34 | The cell loop appends consecutive cells to both the column and the layer's matrix, and changes no other column or matrix |
| Construct.NewColumnWellFormed | prototypes/column.prototype.js:6-36 | Creating a column keeps the net well formed |
| LayerBuild.ConnectOneGrowth | prototypes/layer.prototype.js:57-65 | One potential-pool roll adds a synapse exactly when the roll is below `potentialPercent` and the input cell exists, from that cell to the column's proximal segment. Its permanence is the second roll, capped at `connectedPermanence`. Without a new synapse the net is unchanged |
| LayerBuild.ConnectInputsGrowth | prototypes/layer.prototype.js:54-67 | Connecting a column changes only its proximal segment and the input cells' axons, and draws every new synapse's transmitting cell from the proximal inputs' cells, each at most as often as it occurs there |
| LayerBuild.AddColumnShape | prototypes/layer.prototype.js:48-72 | `addColumn` appends a column with the next index in the layer, its own proximal segment, and `cellsPerColumn` cells laid out at global index `k * cellsPerColumn + j` |
| LayerBuild.AddColumnSynapses | prototypes/layer.prototype.js:53-67 | New proximal synapses lie on the new column's segment with permanences in `0..min(99, connectedPermanence)`, come from the inputs' cells, and do not exist when spatial pooling is skipped or `potentialPercent` is 0 |
| LayerBuild.AddColumnWellFormed | prototypes/layer.prototype.js:48-72 | `addColumn` keeps the net well formed |
| LayerBuild.AddColumnLayout | prototypes/layer.prototype.js:50 | Each added column keeps the layer's layout: the `k`-th column has index `k`, and its cells have the right global indexes, coordinates and owner |
| LayerBuild.AddColumnsLayers | prototypes/layer.prototype.js:75-79 | The constructor's loop appends `count` columns to this layer only, in order of creation |
| LayerBuild.AddColumnsPermanences | prototypes/layer.prototype.js:57-63 | Building the columns keeps every permanence in 0..100 |
| LayerBuild.NewLayer | prototypes/layer.prototype.js:20-79 | The `Layer` constructor applies its defaults (no proximal inputs, null distal and apical inputs), creates its own matrix, and creates `columnCount` columns unless spatial pooling is skipped |
| LayerBuild.NewLayerInvariants | prototypes/layer.prototype.js:20-79 | A new layer leaves the net well formed, laid out column by column, and with permanences in range |
| CellMatrixOps.Rotate | prototypes/cellmatrix.prototype.js:43-59 | A touched segment's non-empty active and connected lists move to the front of their histories, bounded by `historyLength`; empty lists leave their history alone |
| CellMatrixOps.RotateIdempotent | prototypes/cellmatrix.prototype.js:43-59 | Rotating a segment twice is the same as once, so a segment reached through several active cells is archived once (the guards at lines 43 and 52) |
| CellMatrixOps.ClearAxon | prototypes/cellmatrix.prototype.js:40-60 | Exactly the segments on a cell's axon are rotated |
| CellMatrixOps.ResetActiveStates | prototypes/cellmatrix.prototype.js:24-77 | The active and learning lists move into their bounded histories and become empty; exactly the listed cells lose `active` and `learning`, and the active ones lose their learn segments; exactly the segments reached through the axons of active cells that sit in a column are rotated; nothing else changes |
| CellMatrixOps.ResetPredictiveStates | prototypes/cellmatrix.prototype.js:82-98 | The predictive list moves into its bounded history and becomes empty; exactly the listed cells lose `predictive` and their learn segments; nothing else changes |
| CellMatrixOps.ResetActiveStatesWellFormed | prototypes/cellmatrix.prototype.js:24-77 | Resetting active states keeps the net well formed |
| CellMatrixOps.ResetPredictiveStatesWellFormed | prototypes/cellmatrix.prototype.js:82-98 | Resetting predictive states keeps the net well formed |
| Selection.ActiveColumnCount | htm.controller.js:131-134 | The active column count is at least 1 and is the floor of `sparsity% * columnCount` whenever that floor is positive |
| Selection.InsertPos | htm.controller.js:137-145 | The insertion slot is the first one that is empty or holds a strictly lower score, or none below the limit |
| Selection.InsertTopStep | htm.controller.js:135-146 | Inserting the next column keeps the list the exact top of the columns seen so far: ordered, dominating every column left out, and complete while there is room |
| Selection.Select | htm.controller.js:135-146 | The selection is `min(count, columns)` distinct positions, in descending score with ties in layer order, and no position left out outranks a chosen one |
| Activation.ScoreColumn | htm.controller.js:341-343 | A connected proximal synapse adds exactly one to the score of its segment's column, and only to it |
| Activation.RecordActive | htm.controller.js:347-350 | An active synapse is appended to its segment's active list, and also to its connected list when its permanence reaches `connectedPermanence` |
| Activation.MarkPredictive | htm.controller.js:351-365 | Once a connected synapse brings its segment to `activationThreshold`, a cell not yet predictive becomes predictive, is appended to its own matrix's predictive list, and takes the segment as its distal or apical learn segment; otherwise the cell and the lists are unchanged |
| Activation.UpdateBestFacts | htm.controller.js:368-397 | A segment becomes its column's best of its kind (and its cell's learn segment) exactly when it outmatches the current best and has at least `minThreshold` active synapses |
| Activation.UpdateBestQualified | htm.controller.js:372-395 | A column's best segment only ever changes to a segment of the right kind, owned by one of its cells, with at least `minThreshold` active synapses, that outmatches the one it replaces |
| Activation.ActivateSynapseScore | htm.controller.js:338-343 | A synapse onto a proximal segment stamps the segment with the timestep and raises its column's score by one exactly when connected |
| Activation.ActivateSynapseRecords | htm.controller.js:338-366 | A synapse onto a cell's segment stamps it, records itself as active (and as connected when its permanence reaches `connectedPermanence`). The cell becomes predictive exactly when that connected count reaches `activationThreshold`, and joins the predictive list only if it was not predictive before |
| Activation.ActivateCellMatrixKeeps | htm.controller.js:330-401 | Transmitting a matrix creates nothing and changes no synapse. It only raises predictive flags, appends to segment and predictive lists, and raises scores. It keeps the net well formed and the predictive lists exact. A best segment stays qualified and owned by its column |
| Activation.OutmatchesIsNotAnOrder | htm.controller.js:373-375 | Two segments can each outmatch the other, so the winner depends on transmission order |
| SpatialPooler.ClearScores | htm.controller.js:106-109 | Exactly the layer's columns get score 0 |
| SpatialPooler.SdrCells | htm.controller.js:113-124 | An SDR names exactly the matrix cells at its in-range indexes |
| SpatialPooler.ActivateInputFacts | htm.controller.js:113-124 | Applying an SDR appends its cells to the input's active list, and to the learning list when learning; exactly those cells are flagged; no other matrix changes |
| SpatialPooler.LearnSynapsesExact | htm.controller.js:152-165 | Each proximal synapse of a winner is reinforced when its transmitting cell is active and degraded otherwise; all other permanences are unchanged |
| SpatialPooler.LearnColumnsPermanences | htm.controller.js:149-167 | Spatial-pooler learning keeps every permanence in 0..100 |
| SpatialPooler.Winners | htm.controller.js:129-146 | The winners are `min(columns, activeColumnCount)` of the layer's columns |
| SpatialPooler.SpatialPooling | htm.controller.js:96-171 | A missing layer throws with the net untouched; otherwise no entity is created, the step counter stays, and without learning no synapse changes |
| SpatialPooler.SpatialPoolingWinners | htm.controller.js:129-169 | The layer's active columns become the top `activeColumnCount` columns by score, in descending order. No column left out outscores a winner. Learning with fewer columns than that count throws (line 152 dereferences a winner that does not exist), and nothing else throws |
| SpatialPooler.SpatialPoolingWellFormed | htm.controller.js:96-171 | Spatial pooling keeps the net well formed |
| SpatialPooler.SpatialPoolingPermanences | htm.controller.js:96-171 | Spatial pooling keeps every permanence in 0..100 |
| SpatialPooler.ResetInputsClears | htm.controller.js:101-104 | With both resets applied, every proximal input ends with empty active, learning and predictive lists, and no other matrix changes |
| SpatialPooler.AsWrittenThrows | htm.controller.js:101-104 | The chained reset as written throws whenever the layer has a proximal input; without one it behaves like the corrected definition |
| SpatialPooler.CorrectedResetsInputs | htm.controller.js:101-104 | The corrected reset clears every input's lists, and the corrected pooling returns normally whenever the winners fill the active count |
| Training.FirstSampled | htm.controller.js:534-540 | The search finds the first sampled position whose cell carries the given index, and no earlier one does |
| Training.Without | htm.controller.js:542-548 | Removing a synapse from the list still to degrade takes away exactly one occurrence of it |
| Training.EnforceExact | htm.controller.js:526-550 | Exactly the previously active synapses are reinforced. The list still to degrade loses exactly them |
| Training.DegradeAllExact | htm.controller.js:552-558 | Exactly the listed synapses are degraded |
| Training.EnforceSubsample | htm.controller.js:533-540 | Reinforcement only removes positions from the sample and keeps it free of duplicate cells |
| Training.TrainSegmentPermanences | htm.controller.js:524-558 | After training, a previously active synapse of the segment is reinforced, its other synapses are degraded, and every other permanence is unchanged |
| Training.LruChoice | htm.controller.js:573-585 | The least-recently-used choice is the first segment with the oldest stamp going round from a random start, and it consumes exactly one draw |
| Training.OpenSegment | htm.controller.js:588-589 | An overflow segment has the same kind and receiving cell, starts empty, and is stamped with the current step |
| Training.GrowFacts | htm.controller.js:568-593 | Growth only appends synapses from sampled active cells at `initialPermanence`, and only opens segments of the same kind on the same cell |
| Training.TrainSegmentPhases | htm.controller.js:521-594 | `trainSegment` samples first, reinforces and degrades without touching any segment or cell, and then, on a segment with a receiving cell, grows from the sample positions left |
| Training.TrainSegmentOverflow | htm.controller.js:569-590 | Every segment `trainSegment` creates is a fresh segment of the same kind on the same receiving cell, stamped with the current step |
| Training.TrainSegmentSampled | htm.controller.js:523-593 | Every new synapse comes from the random sample of active cells, at `initialPermanence` |
| Training.TrainSegmentNoDuplicates | htm.controller.js:533-540 | No new synapse duplicates the cell index of a synapse that was just reinforced |
| Training.TrainSegmentKeeps | htm.controller.js:521-594 | `trainSegment` touches no column, matrix or layer. It keeps the net well formed and permanences in range. It keeps every segment within `maxSynapsesPerSegment` when the cap admits a fresh batch |
| Training.Unlearn | htm.controller.js:458 | A trained cell's learning flag is off |
| Training.ChosenSegment | htm.controller.js:414-439 | A column cell only ever trains a distal or apical segment that it receives on; a cell outside any column trains its learn segment of the kind |
| Training.TrainCellMatrix | htm.controller.js:411 | Without an active history in the transmitting matrix or a predictive history in the receiving one, `trainCellMatrix` changes nothing |
| Training.TrainCellMatrixKeeps | htm.controller.js:408-514 | `trainCellMatrix` touches no column, matrix or layer, and keeps the net well formed, permanences in range and segments within their cap |
| Training.TrainCellMatrixUnlearns | htm.controller.js:458-509 | Every cell of the receiving matrix's last predictive list ends with its learning flag cleared. When its last learning list is non-empty, so does every cell on its current learning list |
| Training.ConnectFacts | htm.controller.js:504-507 | The new segment's synapses are appended in order, all from sampled learning cells, at the given permanence |
| Training.NewLearnSegmentShape | htm.controller.js:500-507 | An unmatched learning cell gets one fresh stamped segment of the kind, with at most `min(maxNewSynapseCount, sample)` synapses from the previous learning cells |
| Training.JudgeCellFacts | htm.controller.js:413-459 | For a cell whose chosen segment was active last step: an active cell has that segment trained; an inactive cell has exactly that segment's synapses lowered by `predictedSegmentDecrement`, clipped at 0, with nothing created or otherwise changed. Without such a segment only the learning flag changes. The cell always stops learning |
| Training.LearnCellFacts | htm.controller.js:461-510 | A cell not flagged for learning is untouched. A learning cell trains its matched segment, or else gets exactly one new segment of the kind, received by it, stamped with the current step, with at most `min(maxNewSynapseCount, sample)` new synapses at `initialPermanence`. It then stops learning |
| TemporalMemory.PredictiveOf | htm.controller.js:227-238 | The predicted cells of a column are exactly its predictive cells, and none exist exactly when no cell is predictive |
| TemporalMemory.ColumnActivityFacts | htm.controller.js:225-271 | An active column activates exactly its predictive cells, or all its cells when none is predictive. Without learning no cell learns. A predicted column's active cells all learn. A bursting column with a best segment flags that segment's cell. The column throws exactly when it learns, bursts, and has no cells and no best segment (line 263) or a best segment without a receiving cell (line 267) |
| TemporalMemory.BurstLearnerFewest | htm.controller.js:248-264 | With no matching segment, a bursting column flags one cell with the fewest distal segments, the first such cell going round from a random start |
| TemporalMemory.ActivateColumnsThrows | htm.controller.js:224-272 | The column loop throws exactly when one of the active columns throws while learning |
| TemporalMemory.ActivateColumnsMembers | htm.controller.js:224-272 | Every cell the loop appends to the active list is activated by some active column; when the loop does not throw, every such cell is appended |
| TemporalMemory.TmActivateFacts | htm.controller.js:217-273 | `tmActivate` archives the previous active and learning lists, then lists only cells its active columns activate, with their flags raised, and all of them unless a column throws; it throws exactly when a column does. Without learning nothing is flagged. Nothing outside the layer's matrix and cells changes |
| TemporalMemory.TmActivateKeeps | htm.controller.js:217-273 | `tmActivate`, returned or thrown, keeps the net well formed and the predictive lists exact |
| TemporalMemory.SaveAllBestsFacts | htm.controller.js:290-306 | Each of the layer's columns archives its best segments into bounded histories and clears them; other columns are unchanged |
| TemporalMemory.TmPredictBests | htm.controller.js:283-310 | After `tmPredict`, each layer column's best segments have at least `minThreshold` active synapses and belong to the column's own cells; their histories hold the previous best segments first |
| TemporalMemory.TmPredictKeeps | htm.controller.js:283-310 | `tmPredict` archives the predictive list, creates nothing, changes no synapse, and keeps the net well formed and the predictive lists exact |
| TemporalMemory.TrainOrThrowFacts | htm.controller.js:319-322 | `tmLearn` throws exactly when the distal input is missing, or when it has an active history and the receiving matrix is missing. Otherwise it trains within the training frame |
| TemporalMemory.TemporalMemoryOutcome | htm.controller.js:177-194 | `temporalMemory` always advances the step counter. It throws exactly when the layer or its matrix is missing, when an active column cannot name its learning cell (lines 263 and 267), or when learning without a distal input |
| TemporalMemory.TemporalMemoryWellFormed | htm.controller.js:177-194 | A temporal memory step, returned or thrown, keeps the net well formed |
| TemporalMemory.TemporalMemoryListed | htm.controller.js:177-194 | A temporal memory step keeps every matrix's predictive list exact: listed once, predictive, in that matrix |
| TemporalMemory.TemporalMemoryPermanences | htm.controller.js:177-194 | A temporal memory step keeps every permanence in 0..100 when the layer's seed permanence is at most 100 |
| TemporalMemory.TemporalMemoryLists | htm.controller.js:181-192 | After a step, the layer's active and learning histories hold the previous lists first, and so does the predictive history unless an active column threw (then it is untouched). The active list holds only cells the active columns activate, all flagged active, and all of them unless a column threw. Without learning no cell is listed as learning |
| TemporalMemory.TemporalMemoryBests | htm.controller.js:177-194 | After a step in which no active column throws, every layer column's best segments qualify and belong to its cells, and their histories hold the previous best segments first; when one throws, no column changes |
| TemporalMemory.TrainInputsFacts | htm.controller.js:205-207 | Training each proximal input in turn stays within the training frame and keeps the net well formed and permanences in range. With at least one input, it throws exactly when the layer's matrix is missing, or when that matrix has an active history and some input is missing |
| TemporalMemory.InputMemoryFacts | htm.controller.js:201-208 | `inputMemory` throws on a missing layer and otherwise behaves as the input training loop says |

## Left out

- Randomness: `Math.random()` is a parameter (`Base.Rng`). The properties hold for every generator, and no distribution is modelled.
- Floating point: permanences, increments and percentages are integers, as the defaults are. `Selection.ActiveColumnCount` computes the exact integer floor of `sparsity * columnCount / 100`. The source's `parseInt(parseFloat(sparsity) / 100 * columnCount)` can fall one below it through rounding error (sparsity 29 with 100 columns gives 28).
- The decay constant the `Layer` constructor derives from `meanLifetime` (prototypes/layer.prototype.js:38-40): a floating-point value that nothing modelled reads.
- Column fields the modelled code never reads (`overlapActive`, `overlapPredictedActive`, `persistence`, `initialPersistence`, `lastUsedTimestep`), and the segment flags `active` and `learning` and `predictedActiveSynapses`. These are stored with their initial values and never changed.
- TypeErrors inside loops: a handle inside a loop that names no entity is skipped, where JavaScript would throw part-way through. Examples are an input cell index past the end of an SDR's input and a synapse whose segment is gone. Nets built by the constructors never hold such handles (`WellFormed`). The modelled throws are the entry-level throws of `spatialPooling`, `temporalMemory`, `tmLearn` and `inputMemory`, and the missing learning cell in `tmActivate`.
- SpatialPooler.SpatialPooling: an SDR past the last proximal input is skipped; the source throws on it.
- Training.TrainCellMatrix: an empty learning-cell history in either matrix is read as "no learning cells". The source would throw there, but with `historyLength > 0` a controller step never reaches that state:
  - On the transmitting side, `resetActiveStates` pushes the active history (prototypes/cellmatrix.prototype.js:27) and the learning history (:66) in the same call. The learning history is therefore non-empty whenever the active history checked at htm.controller.js:411 is.
  - On the receiving side, the guard at line 411 checks the predictive history, which only `resetPredictiveStates` pushes (prototypes/cellmatrix.prototype.js:85). Every caller resets a matrix's active states before its predictive states: `tmActivate` runs before `tmPredict`, and line 103 calls `resetActiveStates` first. So the learning history read at line 461 is non-empty whenever that predictive history is.
- Training.TrainSegmentPhases: a segment without a receiving cell is reinforced and degraded, and the call then returns. The source throws a `TypeError` at htm.controller.js:561, where it reads `segment.cellRx` after degrading. The only segment the constructors create without a receiving cell is a column's proximal segment (prototypes/column.prototype.js:22). `trainCellMatrix` trains only distal and apical segments. For a column cell it trains the column's previous best segment, and only when the segment is received by that cell. For an input cell it trains the cell's learn segment, which `activateCellMatrix` sets to a segment received by that cell (htm.controller.js:360-363). So only a hand-built net reaches this case.
- LayerBuild.NewLayer: an omitted `layerType` becomes `TmLayer`. The source reads the global `TM_LAYER` (prototypes/layer.prototype.js:26), and no modelled file defines it: htm.controller.js:5-7 define only `PROXIMAL`, `DISTAL` and `APICAL`. There the default raises a `ReferenceError` unless the embedding page defines `TM_LAYER`. The model assumes such a definition.
- Training.LruChoice: the least-recently-used segment is computed and, as in the source, never removed. A cell is therefore not kept within `maxSegmentsPerCell`.
- Training.TrainSegmentKeeps and Training.TrainCellMatrixKeeps: the per-segment synapse cap is proved only when `1 <= maxSynapsesPerSegment` and `maxNewSynapseCount <= maxSynapsesPerSegment`. Otherwise a fresh segment can overflow: `NewLearnSegment` connects up to `maxNewSynapseCount` synapses to a new segment (htm.controller.js:500-507), and line 588 opens the overflow segment without a check.
- Training.TrainSegmentPermanences: requires the segment's synapse list and its last active-synapse entry to be free of duplicates, which the constructors and `activateCellMatrix` keep.
- Training.JudgeCellFacts: the exact new permanences are stated only when the trained or punished segment's synapse list (and, for training, its last active-synapse entry) has no duplicate handles, as for `TrainSegmentPermanences`. A repeated handle is punished once per entry in the source; the frame clauses hold without the condition.
- Training.TrainSegmentNoDuplicates: requires the active cells to carry distinct cell indexes, as the cells of one matrix do.
- TemporalMemory.TmPredictBests and TemporalMemory.TemporalMemoryBests: the exact history push of each column's best segments is stated only when the layer's column list has no duplicate handles, as the constructor builds it.
- TemporalMemory.TemporalMemoryPermanences: requires the layer's `initialPermanence` to be at most 100.
- `createInputCells`, `createTmLayer`, `clear()` on the controller, layer and matrix, and `input.prototype.js` are not part of this model. They build or tear down the graph around the modelled operations.

## Findings

| source | as written | input that shows it | evidently intended | confidence | as-written member | corrected member |
|---|---|---|---|---|---|---|
| htm.controller.js:103 | `resetActiveStates().resetPredictiveStates()` calls a method on the return value of `resetActiveStates`, which returns nothing, so the call throws a `TypeError` after the first input's active states are reset | any layer with at least one proximal input, e.g. a layer built with one input matrix, and any SDRs | reset both the active and the predictive states of every proximal input, then continue | high (not executed) | SpatialPooler.SpatialPoolingAsWritten (SpatialPooler.AsWrittenThrows) | SpatialPooler.SpatialPooling (SpatialPooler.CorrectedResetsInputs) |
