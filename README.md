# Wave Function Collapse solver: constraint propagation, modelled in Dafny

This project models the core of a small grid Wave Function Collapse solver for Unity:
- the `WaveFunctionCollapse` component;
- the `Tile` cell record it fills its grid with.

The grid is a flat array of cells, stored row by row. Cell (i, j) sits at index `i * currentWidth + j`, with `i < currentHeight` and `j < currentWidth`. Each cell has two fields:
- a `Collapsed` flag;
- a `Possible` list of the tile states still allowed. There are five states: BLANK, UP, RIGHT, DOWN and LEFT, numbered 0 to 4.

Every frame the solver does three things in order:
1. It rebuilds the grid with fresh cells if the requested width or height changed.
2. It collapses one cell. This cell is uncollapsed and has the fewest possibilities, picked at random among the ties. It is fixed to a random state from its own list.
3. It runs one propagation sweep. The sweep visits the cells in row-major order. For each uncollapsed cell it recomputes the list from the full state list, keeping a state only if every in-range neighbour allows it under the literal rule table.

The solver calls the neighbour (i, j + 1) "up", (i + 1, j) "right", (i, j - 1) "down" and (i - 1, j) "left". It reads each neighbour's rule list for the side facing back, as `DOWN - 1`, `LEFT - 1`, `UP - 1` and `RIGHT - 1`. The first index runs up to `currentHeight`, even though it is the horizontal coordinate when cells are placed on screen. The model keeps these names.

Modules:
- `Rules`: the state constants and the rule table. Proves that the table is well formed and reciprocal, and that every column of the table covers all states.
- `Tiles`: the cell as a value, the cell invariant, and facts about increasing lists.
- `Grid`: the bounds check `InRange`, row-major index arithmetic, and the fresh grid.
- `Propagation`:
  - the solver's list operations (SelectMany, Where, Distinct) and the chain built from them;
  - the reference meaning of one cell update, `Admissible`, with its set equation, order, monotonicity and behaviour on isolated and fresh cells;
  - the row-major sweep with live reads, and what it does to each cell.
- `Narrowing`: across frames, collapse followed by a sweep only removes possibilities and never touches a collapsed cell. The proof uses the monotonicity of the sweep and the fact that the grid it starts from is itself a sweep result.
- `Solver`: the component as a class. It has the requested and current dimensions, the grid as an `array?<Tile>`, and the operations `CreateGrid`, `Start`, the collapse (with its minimum scan), `UpdateTile`, `UpdatePossibilities` and the per-frame `Tick`.

A cell is a datatype value stored in the array. The solver creates every cell separately and never shares one, so writing a new value into the array matches writing the fields of the cell in place. Collapse writes the list first and the flag second, as the source does.

## Model

| member | source | states |
|---|---|---|
| Rules.TableWellFormed | WaveFunctionCollapse/Assets/WaveFunctionCollapse.cs:26-68 | the table has five states with exactly four lists each, and every entry is a state 0..4 |
| Rules.Reciprocal | WaveFunctionCollapse/Assets/WaveFunctionCollapse.cs:26-68 | b is allowed on side d of a exactly when a is allowed on the opposite side of b, for all states and sides of the literal table |
| Rules.ColumnCovers | WaveFunctionCollapse/Assets/WaveFunctionCollapse.cs:26-68 | for every side, each state is allowed by at least one state, so a neighbour that still allows everything rules nothing out |
| Rules.Opposite | WaveFunctionCollapse/Assets/WaveFunctionCollapse.cs:189-214 | the side facing back is again a side, two steps round from d: up and down, right and left pair up, which is the pairing the solver's lookups `DOWN-1`, `LEFT-1`, `UP-1`, `RIGHT-1` use for the neighbours above, right, below and left |
| Rules.FacingSides | WaveFunctionCollapse/Assets/WaveFunctionCollapse.cs:192-213 | the sides the solver reads, `DOWN - 1`, `LEFT - 1`, `UP - 1` and `RIGHT - 1` for the neighbours above, right, below and left, are each the opposite of the direction of that neighbour, so the table's reciprocity applies to exactly these lookups |
| Tiles.NewTile | WaveFunctionCollapse/Assets/Tile.cs:7-9 | a fresh cell is uncollapsed and holds every state exactly once, in order BLANK..LEFT |
| Tiles.CollapseTo | WaveFunctionCollapse/Assets/WaveFunctionCollapse.cs:154-155 | a collapsed cell holds exactly the one chosen state and keeps the cell invariant |
| Tiles.PossibleBound | WaveFunctionCollapse/Assets/Tile.cs:9 | an increasing list of states (no repeats, in order), which every cell's list is, never holds more than five, so a count never reaches the scan's starting minimum |
| Grid.InRange | WaveFunctionCollapse/Assets/WaveFunctionCollapse.cs:243-246 | when the bounds check passes, the row-major index `x * currentWidth + y` lies in `[0, currentHeight * currentWidth)` |
| Grid.RowMajor | WaveFunctionCollapse/Assets/WaveFunctionCollapse.cs:165-172 | the index `i * width + j` of the sweep decodes back to row i and column j |
| Grid.RowMajorBound | WaveFunctionCollapse/Assets/WaveFunctionCollapse.cs:83-90 | every index the nested loops write or read lies inside the grid |
| Grid.FreshGrid | WaveFunctionCollapse/Assets/WaveFunctionCollapse.cs:82-91 | a rebuilt grid has exactly `height * width` cells, each a fresh cell |
| Propagation.AllowedBy | WaveFunctionCollapse/Assets/WaveFunctionCollapse.cs:192 | the SelectMany of a neighbour's possibilities over one side of the table: empty exactly when the neighbour has no possibility, since every rule list is non-empty; AllowedByMembers states its elements |
| Propagation.AllowedByMembers | WaveFunctionCollapse/Assets/WaveFunctionCollapse.cs:192 | the SelectMany over a neighbour's list yields states only, and exactly the states some possibility of the neighbour allows on that side |
| Propagation.KeepIf | WaveFunctionCollapse/Assets/WaveFunctionCollapse.cs:193 | the Where filter over the current options: never longer than the options; KeepIfMembers states which elements it keeps |
| Propagation.KeepIfMembers | WaveFunctionCollapse/Assets/WaveFunctionCollapse.cs:193 | the Where filter keeps exactly the options found in the allowed list, and keeps an increasing list increasing |
| Propagation.Distinct | WaveFunctionCollapse/Assets/WaveFunctionCollapse.cs:217 | the result has no repeated element, holds exactly the elements of the input, is no longer than it, and an already duplicate-free ordered list comes back unchanged |
| Propagation.NarrowBy | WaveFunctionCollapse/Assets/WaveFunctionCollapse.cs:189-215 | one guarded block: filters the options by an in-range neighbour, never lengthening them; NarrowByMembers states which options survive |
| Propagation.NarrowByMembers | WaveFunctionCollapse/Assets/WaveFunctionCollapse.cs:189-215 | one guarded filtering step keeps exactly the options the in-range neighbour allows, and every option when the neighbour is out of range |
| Propagation.Chain | WaveFunctionCollapse/Assets/WaveFunctionCollapse.cs:185-217 | the four guarded blocks in the solver's order, then Distinct: at most five states; ChainIsAdmissible proves it equal to the reference list |
| Propagation.ChainIsAdmissible | WaveFunctionCollapse/Assets/WaveFunctionCollapse.cs:185-217 | the four filters applied in the solver's order, then Distinct, give exactly the reference list of the cell |
| Propagation.AdmissibleMembers | WaveFunctionCollapse/Assets/WaveFunctionCollapse.cs:185-217 | a state is in the recomputed list if and only if it is one of the five states and every in-range neighbour has a possibility allowing it on the facing side |
| Propagation.AdmissibleShape | WaveFunctionCollapse/Assets/WaveFunctionCollapse.cs:217 | the recomputed list holds states only, strictly increasing, so it has no duplicates and is ordered BLANK..LEFT |
| Propagation.AdmissibleIsolated | WaveFunctionCollapse/Assets/WaveFunctionCollapse.cs:185-217 | a cell with no in-range neighbour is recomputed to the full state list |
| Propagation.AdmissibleMonotone | WaveFunctionCollapse/Assets/WaveFunctionCollapse.cs:185-217 | neighbours with fewer possibilities, cell by cell, give a recomputed list that is a subset |
| Propagation.AdmissibleOfFresh | WaveFunctionCollapse/Assets/WaveFunctionCollapse.cs:185-217 | in a fresh grid every cell is recomputed to the full state list |
| Propagation.Step | WaveFunctionCollapse/Assets/WaveFunctionCollapse.cs:169-173 | one visit of the sweep: a collapsed cell is skipped, an uncollapsed one gets its recomputed list; its own contract only keeps the grid's length, and what a visit does is stated by StepOk, StepFrame and SweepToCell |
| Propagation.StepOk | WaveFunctionCollapse/Assets/WaveFunctionCollapse.cs:169-173 | visiting one cell keeps every cell's list a duplicate-free ordered list of states, and a collapsed cell a singleton |
| Propagation.StepFrame | WaveFunctionCollapse/Assets/WaveFunctionCollapse.cs:169-173 | visiting a cell changes no Collapsed flag and no other cell |
| Propagation.SweepTo | WaveFunctionCollapse/Assets/WaveFunctionCollapse.cs:165-175 | the grid after the first n visits in row-major order, each visit reading the grid the previous ones left; its own contract keeps the length, and SweepToCell states what happens to each cell |
| Propagation.Sweep | WaveFunctionCollapse/Assets/WaveFunctionCollapse.cs:158-176 | the full sweep over all cells; its own contract keeps the length, and the lemmas below state its effect |
| Propagation.SweepToCell | WaveFunctionCollapse/Assets/WaveFunctionCollapse.cs:165-175 | cells not yet visited and collapsed cells are unchanged; an uncollapsed cell once visited holds the list recomputed from the grid as the sweep left it just before that visit (earlier cells already updated, later ones not) |
| Propagation.SweepToOk | WaveFunctionCollapse/Assets/WaveFunctionCollapse.cs:165-175 | every prefix of the sweep keeps the cell invariant |
| Propagation.SweepOk | WaveFunctionCollapse/Assets/WaveFunctionCollapse.cs:158-176 | a full sweep keeps the cell invariant on every cell |
| Propagation.SweepKeepsCollapsed | WaveFunctionCollapse/Assets/WaveFunctionCollapse.cs:170 | the sweep changes no Collapsed flag and never rewrites a collapsed cell |
| Propagation.StepFresh | WaveFunctionCollapse/Assets/WaveFunctionCollapse.cs:169-173 | visiting any cell of a fresh grid leaves the grid as it is |
| Propagation.SweepToFixpoint | WaveFunctionCollapse/Assets/WaveFunctionCollapse.cs:165-175 | a grid that every single visit leaves alone is left alone by the whole sweep |
| Propagation.SweepFresh | WaveFunctionCollapse/Assets/WaveFunctionCollapse.cs:158-176 | sweeping a fresh grid leaves it as it is |
| Narrowing.FreshSettled | WaveFunctionCollapse/Assets/WaveFunctionCollapse.cs:75-92 | a freshly built grid already is its own sweep, so the frame invariant holds from the start |
| Narrowing.StepMonotone | WaveFunctionCollapse/Assets/WaveFunctionCollapse.cs:169-173 | visiting the same cell of a pointwise-smaller grid gives a pointwise-smaller grid, provided the visited cell is collapsed in the smaller grid whenever it is in the larger one, and, if collapsed only in the smaller one, allows no more than the larger grid's recomputed list for it |
| Narrowing.SweepToMonotone | WaveFunctionCollapse/Assets/WaveFunctionCollapse.cs:165-175 | the same for every prefix of the sweep, under the same conditions on every cell: the collapsed cells of the larger grid are collapsed in the smaller one, and a cell collapsed only in the smaller one allows no more than the sweep of the larger grid gives it |
| Narrowing.SweepMonotone | WaveFunctionCollapse/Assets/WaveFunctionCollapse.cs:158-176 | the sweep is monotone: a smaller start grid, with its extra collapsed cells inside what the sweep gives them, sweeps to a pointwise-smaller grid |
| Narrowing.TickNarrows | WaveFunctionCollapse/Assets/WaveFunctionCollapse.cs:119-120 | after collapsing cells of a settled grid and sweeping, the new grid is settled again, allows no more than before cell by cell, and every collapsed cell is unchanged |
| Solver.WaveFunctionCollapse.constructor | WaveFunctionCollapse/Assets/WaveFunctionCollapse.cs:11-18 | the component starts with no grid and current dimensions 0 |
| Solver.WaveFunctionCollapse.CreateGrid | WaveFunctionCollapse/Assets/WaveFunctionCollapse.cs:75-92 | the current dimensions become the requested ones, and the grid becomes a new array of exactly `height * width` fresh cells; the frame invariant holds |
| Solver.WaveFunctionCollapse.Start | WaveFunctionCollapse/Assets/WaveFunctionCollapse.cs:70-73 | the first frame builds the fresh grid |
| Solver.WaveFunctionCollapse.ScanMinimum | WaveFunctionCollapse/Assets/WaveFunctionCollapse.cs:132-145 | `min` is the least count over the uncollapsed cells, and `possibleTiles` is exactly the uncollapsed cells with that count, in grid order; it is empty, with `min` still `int.MaxValue`, exactly when every cell is collapsed |
| Solver.WaveFunctionCollapse.Collapse | WaveFunctionCollapse/Assets/WaveFunctionCollapse.cs:126-156 | nothing changes without a grid or without an uncollapsed cell; otherwise the chosen cell has minimum entropy, and if it has a state it becomes collapsed to one of its own states with every other cell unchanged; an uncollapsed cell with an empty list forces the contradiction outcome, leaving the grid unchanged |
| Solver.WaveFunctionCollapse.TileOptions | WaveFunctionCollapse/Assets/WaveFunctionCollapse.cs:185-217 | for any (i, j), the solver's chain of filters over the four in-range neighbours, then Distinct, computes exactly the reference list `Admissible` |
| Solver.WaveFunctionCollapse.UpdateTile | WaveFunctionCollapse/Assets/WaveFunctionCollapse.cs:178-218 | only cell (i, j) changes: its list becomes the reference list computed from the grid as it stands, and its flag stays; rewriting an uncollapsed cell keeps the cell invariant on the whole grid |
| Solver.WaveFunctionCollapse.UpdatePossibilities | WaveFunctionCollapse/Assets/WaveFunctionCollapse.cs:158-176 | the grid becomes exactly the row-major live-read sweep of the grid before, and keeps the cell invariant |
| Solver.WaveFunctionCollapse.CollapseAndPropagate | WaveFunctionCollapse/Assets/WaveFunctionCollapse.cs:119-120 | on the grid as it stands: the outcome is Idle exactly when every cell is collapsed, and a contradiction whenever an uncollapsed cell has an empty list (the grid then stays as it was); otherwise the new grid is exactly the sweep of the grid with the committed cell collapsed to its chosen state, it allows no more cell by cell, and collapsed cells are unchanged; the frame invariant is kept |
| Solver.WaveFunctionCollapse.Tick | WaveFunctionCollapse/Assets/WaveFunctionCollapse.cs:109-124 | the grid is rebuilt exactly when the dimensions changed. Measured on the grid the frame starts on, the outcome is Idle exactly when every cell is collapsed, and it is a contradiction whenever some uncollapsed cell has an empty list. Unless the collapse finds a contradiction, the new grid is exactly the sweep of the grid the frame starts on, with the committed cell (if any) collapsed to its chosen state. From that start grid, the new grid allows no more, cell by cell, and keeps every collapsed cell unchanged. A committed cell ends collapsed to its chosen state. A contradiction leaves the grid untouched. The frame invariant is kept |

## Left out

- Unity lifecycle and scheduling are not modelled. `Tick` is one `LateUpdate` with the busy flag clear. The `UpdateGrid` coroutine, the `isUpdating` flag and frame timing only drive rendering.
- Object creation and destruction (`Instantiate`, `Destroy`, `ClearGrid`), object names, positions and sprites are left out. None of them affects cell contents.
- `Tile.Initialize` and the `Renderer` property are rendering only.
- `UnityEngine.Random.Range` is a foreign random number generator. Both picks in `Collapse` are nondeterministic choices within the same ranges, so every contract holds for whatever the generator returns.
- Exceptions: when the chosen cell has an empty list, the source's indexing throws and the rest of the frame is skipped. The model returns `Contradiction` instead, leaves the grid as it was, and skips the sweep.
- Widths and heights are natural numbers. The model does not cover negative serialized sizes, or the 32-bit overflow of `currentHeight * currentWidth`.
- `prior`, the grid as the last collapse left it, is ghost history. It exists only to state the frame invariant; the component has no such field.
- Solver.WaveFunctionCollapse.UpdateTile requires (i, j) to be inside the grid. The source only fails when the index `i * currentWidth + j` falls outside the array, and its only caller passes cells inside the grid.
