# A verified model of the Sudoku solver core

This project models `sudoku.py`, a solver for Classic and Killer Sudoku. The
solver treats the 9×9 grid as a graph of cells. Each cell is linked to the
20 cells sharing its row, column or 3×3 box. Each cell keeps a value and a
set of candidate digits ("valid values").

- **Assigning a value** strikes that value from the unassigned neighbours.
  In the Killer variant it also re-runs the cage-sum solver over the cell's
  cage and over its indirect cages.
- **`solve`** searches for a dead cell, a forced cell or a hidden single,
  and otherwise the cell with the fewest candidates. It backtracks
  chronologically over full-board snapshots.
- **Killer set-up.** Each cage member is wired to the cage's sum and to its
  cage mates. Each row, column and box then gets an indirect cage: the
  cells left over once the cages lying wholly inside it are removed.

## How the model is built

- A cell is addressed by its coordinate `(x, y)`: x is the column, y the
  row, both 1..9.
- A board is a value: a `map<Coord, Cell>` (`Board.Board`). A `Cell` holds:
  - the value;
  - the candidates;
  - the cage sum;
  - the cage mates, as coordinates;
  - the indirect cages, each with its sum and its list of member
    coordinates.
- The neighbour relation is the fixed function `Grid.Peers`. The
  row-major construction by `_connect_entries` / `_add_edge` is modelled
  separately, by the class `Grid.GridGraph`. Its `Build` is proved to end
  with every cell linked to exactly `Peers`.
- The puzzle is the class `Puzzle.Sudoku`:
  - a `variant` field (Classic or Killer);
  - a mutable `entries` board;
  - a mutable `cages` list.
- Operations that work step by step in the source are methods with loops:
  - assign, change and clear;
  - both `clear`s;
  - `_search` and `_unique_valid_value`;
  - `solve`, with its stack of snapshots;
  - the two-index pass and the recursive `update_cage`;
  - the loops of `_connect_cages`;
  - `_possible_adjacent` and `_connected`.
- Each method that edits cells, narrows cages or wires cages, and the
  method for `_possible_adjacent`, is proved to compute a specification
  function, which is one of:
  - `Classic.Struck`, `Changed`, `Cleared` and `Reset`;
  - `Board.Blank`;
  - `Killer.Narrowed` and `Updated`;
  - `Cages.Wire`, `Residual`, `Attached` and `Connected`;
  - `Regions.Adjacents`.
- The properties the source promises are proved about those functions as
  lemmas.
- The other methods are specified by their postconditions alone, with no
  single function they compute: `Search.SearchBoard`,
  `Search.UniqueValidValue`, `CageSum.UpdateCage`, `Puzzle.Sudoku.Step`,
  `Puzzle.Sudoku.Solve` and `Regions.Connected`.
- Where the source iterates over a Python set, which yields elements in an
  arbitrary order, the model picks with `:|`. The choice it made is
  returned as a ghost out-parameter: the order of the cage mates, the lists
  of the residuals, and so on.
- Object references become coordinates. A snapshot (`copy.deepcopy`) is
  simply the saved board value.

Modules follow the structure of the source:

| module | covers |
|---|---|
| `Grid` | coordinates, units, peers, the row-major graph construction |
| `Board` | cells and boards, the `Sound` invariant (the Sudoku rules as the solver maintains them) |
| `Classic` | the effect of `_ClaVertex.assign`, `change` and `clear`, and of `ClassicSudoku.clear` |
| `Search` | `_unique_valid_value` and `_search` |
| `CageSum` | `update_cage`, the enumeration of cage completions |
| `Killer` | `update_cage_valid_values` and `update_valid_values` |
| `Cages` | `_connect_cages` |
| `Regions` | `_possible_adjacent` and `_connected` |
| `Puzzle` | the `Sudoku` class: `solve`, `assign`, `get_entry`, the entry editors and `clear`, together with the imperative forms of the above |

## Model

| member | source | states |
|---|---|---|
| Grid.PeersSymmetric | sudoku.py:236-238 | no cell is its own neighbour, and the neighbour relation is symmetric |
| Grid.PeerCount | sudoku.py:168-188 | every cell of the grid has exactly 20 neighbours |
| Grid.PeersAreUnits | sudoku.py:168-188 | a cell's neighbours are exactly the other cells of its row, its column and its box |
| Grid.LinkedAreEarlierPeers | sudoku.py:177-188 | the three loops of `_connect_entries` link a new cell to exactly the earlier-built cells (in row-major order) among its neighbours |
| Grid.GridGraph.AddEdge | sudoku.py:190-199 | `_add_edge` links two distinct cells both ways and leaves a cell alone when it is asked to link it to itself |
| Grid.GridGraph.ConnectEntries | sudoku.py:168-188 | adds the new cell, gives it exactly its earlier neighbours, and adds it to each of theirs, changing nothing else |
| Grid.GridGraph.Build | sudoku.py:274-276 | the row-major construction of all 81 cells leaves every cell with exactly its 20 neighbours |
| Grid.CoordAtIndex | sudoku.py:274-276 | position i of row-major order and the cell (x, y) correspond one to one |
| Search.UniqueValidValue | sudoku.py:114-137 | any answer is a candidate of the cell that no other cell of its row, or of its column, or of its box, has as a candidate; None only when no candidate qualifies |
| Search.SearchBoard | sudoku.py:80-112 | reports Filled exactly when all cells are filled. Otherwise the reported cell is empty. It is either the first cell in row-major order that is dead, forced or has a hidden single (with that single), or, when none is, a cell with the fewest candidates |
| Puzzle.Sudoku.SearchEntry | sudoku.py:80-112 | `_search` as `solve` uses it: no cell only when every cell is filled; otherwise an empty cell of the grid, with a hidden single of it when one is reported |
| Classic.StruckKeepsSound | sudoku.py:350-371 | assigning a candidate and striking it from the open neighbours keeps the board sound and keeps every value the board held |
| Classic.ChangedKeepsSound | sudoku.py:389-395 | changing the value of an assigned cell to a value no neighbour holds keeps the board sound |
| Classic.ClearedKeepsSound | sudoku.py:397-409 | clearing a cell keeps the board sound |
| Classic.ClearedCell | sudoku.py:400-409 | the cleared cell gets as candidates exactly the digits its assigned neighbours do not hold. Any open cell whose candidates were exactly that keeps the property |
| Classic.ChangedCell | sudoku.py:389-395 | after a change, an open cell whose candidates were exactly the digits its assigned neighbours do not hold still has exactly those |
| Classic.ClearUndoesStrike | sudoku.py:397-409 | on a canonical board, clearing a just-assigned cell gives back the board as it was |
| Classic.ChangeBackRestores | sudoku.py:373-395 | on a canonical board, changing a cell and changing it back gives back the board as it was |
| Classic.ResetIsCanonical | sudoku.py:319-322 | the whole-board reset leaves every cell empty with all nine digits as candidates, which is consistent |
| Classic.StruckKeepsCanonical | sudoku.py:350-371 | assignment keeps each open cell's candidates equal to the digits its assigned neighbours do not hold |
| Puzzle.Sudoku.StrikePeers | sudoku.py:360-371 | the loop of `_ClaVertex.assign` computes the strike. A returned cell is an open neighbour left with one candidate; None means there is no such neighbour |
| Puzzle.Sudoku.ClassicAssign | sudoku.py:350-371 | `_ClaVertex.assign` sets the value, empties the cell's candidates, strikes the value from open neighbours only, and reports a forced neighbour exactly as above |
| Puzzle.Sudoku.Change | sudoku.py:373-395 | `change` fails, changing nothing, when an assigned neighbour holds the value or an open cell lacks it as a candidate. Otherwise an open cell is assigned and an assigned cell is re-valued with its neighbours' candidates repaired |
| Puzzle.Sudoku.Reassign | sudoku.py:389-395 | the repair loop of `change` computes exactly `Changed` |
| Puzzle.Sudoku.ClearCell | sudoku.py:397-409 | `clear` on an assigned cell empties it and recomputes its candidates and its neighbours'; on an open cell it changes nothing |
| Puzzle.Sudoku.Unassign | sudoku.py:400-409 | the loop of `clear` computes exactly `Cleared` |
| Puzzle.Sudoku.ChangeEntry | sudoku.py:324-330 | `change_entry` is `change` on the cell at (x, y) |
| Puzzle.Sudoku.ClearEntry | sudoku.py:332-338 | `clear_entry` is `clear` on the cell at (x, y) |
| Puzzle.Sudoku.Clear | sudoku.py:602-609 | Classic: every cell empty with all digits, cages kept. Killer: the cell's cage sum, mates and indirect cages reset too, and no cages left |
| Puzzle.Sudoku.ResetAll | sudoku.py:319-322 | the loop of `ClassicSudoku.clear` computes `Reset` |
| Puzzle.Sudoku.BlankAll | sudoku.py:602-609 | the loop of `KillerSudoku.clear` computes `Blank` |
| Board.BlankIsSound | sudoku.py:602-609 | the blank board is sound and every cell of it is empty with all digits |
| Puzzle.Sudoku.GetEntry | sudoku.py:209-215 | returns the value of the cell at (x, y) |
| Puzzle.Sudoku.AssignEntry | sudoku.py:201-207 | `assign(x, y, v)` does what the variant's vertex `assign` does, and keeps a sound board sound when v is a candidate |
| Puzzle.Sudoku.Assign | sudoku.py:636-662 | dispatches on the variant. The new board is exactly the strike (Classic) or the strike followed by `update_valid_values` (Killer). A sound board stays sound and keeps every value it held when v is a candidate, and any reported cell is in the grid |
| Puzzle.Sudoku.RecordState | sudoku.py:139-149 | `_record_state` saves the board as it is, a candidate of the cell as the guess, and the cell itself |
| Puzzle.Sudoku.Backtrack | sudoku.py:59-62 | the saved board comes back with the guess struck from the guessed cell, and it stays sound |
| Puzzle.SavedPop | sudoku.py:59-62 | every board on the stack of snapshots is sound and keeps every value the original held |
| Puzzle.Sudoku.Step | sudoku.py:50-76 | one pass of the loop. It reports stuck exactly when no hidden single was given, the cell has no candidates and no board is saved, and then leaves the board untouched; otherwise the board stays sound and keeps every value the original held |
| Puzzle.Sudoku.Solve | sudoku.py:40-78 | Solved leaves a complete board that is sound and follows the Sudoku rules in every row, column and box, keeping every value the input held. Any other answer leaves the board as it was |
| Board.CompleteIsFilledOut | sudoku.py:109-110 | a sound board with all 81 cells filled holds each digit exactly once in every row, column and box |
| CageSum.FitsLast | sudoku.py:718-728 | the last member's forced value is accepted exactly when it is a candidate and clashes with no neighbouring member's known value |
| CageSum.UpdateCage | sudoku.py:712-742 | `update_cage` answers true exactly when the open members can be completed from their candidates, reaching the cage sum with no two neighbouring members equal. Each open member's accumulator gains exactly the values it takes in such completions, and the entries for known members are untouched |
| CageSum.Branch | sudoku.py:732-740 | trying value v for the next member succeeds exactly when v is admissible and the extended known values can be completed |
| CageSum.CompletesIffFills | sudoku.py:714-717 | the search tree's notion of completion is equivalent to the flat one: values from each member's candidates that sum to the cage sum, positive (1..9) throughout, with no clash between neighbouring members |
| CageSum.LastMember | sudoku.py:718-728 | with one member left, the cage can be completed exactly when the remaining sum fits that member |
| Killer.PartitionPermutes | sudoku.py:691-698 | the two-index pass leaves a permutation of the members with every assigned member before every open one |
| Puzzle.Sudoku.Split | sudoku.py:691-698 | the in-place swap loop computes that partition on the array and returns where the open members begin |
| Puzzle.Sudoku.UpdateCageValidValues | sudoku.py:684-710 | reorders the member array in place and narrows the open members. It returns the last open member whose new-value set has a single element |
| Puzzle.Sudoku.Intersect | sudoku.py:706-709 | the intersection loop computes `Prune` and its last single-value member |
| Killer.NarrowedExact | sudoku.py:700-709 | each open member's candidates become exactly the values it takes in some completion of the cage; cells not in the cage are untouched |
| Killer.NarrowedAllAssigned | sudoku.py:700 | when every member is assigned, no candidate changes and the result is None |
| Killer.NarrowedNarrows | sudoku.py:706-707 | the update only removes candidates and never changes a value |
| Killer.PruneKeepsCompletions | sudoku.py:706-707 | narrowing loses no completion of the cage and creates none |
| Killer.ForcedSingle | sudoku.py:705-710 | a reported cell is an open member whose new-value set has one value, and no later open member's set does |
| Killer.LastSingleSpec | sudoku.py:706-709 | the loop's reported cell is the last with a one-value set, and None exactly when there is none |
| Puzzle.Sudoku.UpdateValidValues | sudoku.py:664-682 | narrows the direct cage, listed as the cage mates followed by the cell, then each indirect cage in turn. The result is the last cell any of them reported, and each indirect cage keeps its new member order |
| Puzzle.Sudoku.UpdateIndirect | sudoku.py:677-680 | the loop over the indirect cages computes `NarrowAll`, `ForcedAll` and the reordered cages |
| Puzzle.Sudoku.KillerAssign | sudoku.py:636-662 | `_KilVertex.assign` strikes the value from its neighbours, then runs `update_valid_values`. Its result wins over a forced neighbour |
| Killer.UpdatedKeepsSound | sudoku.py:636-682 | the whole Killer update keeps a sound board sound and keeps every value it held; that candidates only shrink is Killer.UpdatedKeepsShape |
| Killer.UpdatedKeepsShape | sudoku.py:664-682 | `update_valid_values` keeps every value and every cage of each cell, keeps the board well-shaped, and candidates only shrink |
| Killer.ReorderedWellFormed | sudoku.py:693-698 | the indirect cages reordered in place still list distinct cells of the grid, the same ones as before |
| Puzzle.Sudoku.WireMembers | sudoku.py:529-536 | the two nested loops over one cage compute `Wire`: every member gets the cage's sum and all the other members as mates |
| Puzzle.Sudoku.WireCages | sudoku.py:529-536 | the loop over all cages computes `WireAll` |
| Cages.WireAllMembers | sudoku.py:529-536 | with disjoint cages, every member of a cage has that cage's sum, and its mates are exactly the other members; every other cell is untouched |
| Cages.WireAllKeeps | sudoku.py:529-536 | wiring keeps the mate relation symmetric and irreflexive and changes no value, candidate or indirect cage |
| Puzzle.Sudoku.ResidualsOf | sudoku.py:538-550 | the residuals loop: for column i, row i and box i, the cells and the sum (45 minus the removed sums) left after each cage lying wholly inside the rest is taken out |
| Puzzle.Sudoku.TakeOut | sudoku.py:546-550 | one cage taken out of the three units |
| Cages.ResidualOfDisjoint | sudoku.py:538-550 | with disjoint cages, the residual is the unit minus the cages inside it, and its sum is 45 minus their sums |
| Cages.UnitAtIs | sudoku.py:538-542 | the three units of pass i are taken in the order column, row, box |
| Puzzle.Sudoku.AttachIndirect | sudoku.py:538-556 | the second loop attaches, to each cell of a qualifying residual, an indirect cage over exactly that residual |
| Puzzle.Sudoku.AttachTo | sudoku.py:552-556 | the loop over a residual's cells appends the indirect cage to each of them and to no other cell |
| Cages.IndirectForSpec | sudoku.py:552-556 | every indirect cage a cell receives lists the whole residual of one of its units, distinct cells, one to eight of them, with that residual's sum |
| Cages.AttachedKeeps | sudoku.py:552-556 | attaching indirect cages changes no value, candidate, cage sum or mate |
| Puzzle.Sudoku.UpdateAll | sudoku.py:558-559 | the closing pass runs `update_valid_values` on every cell in row-major order |
| Puzzle.Sudoku.ConnectCages | sudoku.py:518-559 | `_connect_cages` is wiring, then indirect cages, then the closing update, in that order |
| Cages.ConnectedKeeps | sudoku.py:518-559 | afterwards every cell has the sum and mates wiring gave it, no value changed, candidates only narrowed, the mate relation symmetric, and a sound board still sound |
| Regions.AroundIsAdjacent | sudoku.py:566-568 | the four listed cells are exactly the cells one step away, without repeats |
| Regions.PossibleAdjacent | sudoku.py:561-572 | `_possible_adjacent` lists, cage cell by cage cell, its uncaged neighbours. A cell is listed exactly when it is uncaged and next to a cage cell |
| Regions.AdjacentsMembers | sudoku.py:561-572 | a cell is in the list exactly when it is uncaged and shares a side with a cage cell |
| Regions.AdjacentsLength | sudoku.py:566-571 | a sanity bound on the list the loops build, not a promise of the source: at most four cells are listed per cage cell |
| Regions.Unvisited | sudoku.py:576-582 | the first loop of `_connected` marks exactly the unvisited uncaged neighbours and leaves every uncaged neighbour marked |
| Regions.Connected | sudoku.py:574-592 | marks the start and only uncaged cells, and only cells in every neighbour-closed set that contains the start. Every newly marked cell has all its uncaged neighbours marked. Starting from nothing visited, on an uncaged start, the answer is true exactly when the uncaged cells form one side-connected region |
| Regions.SpansIff | sudoku.py:589-592 | comparing the count of marked cells with the number of uncaged cells decides connectivity |

## Left out

- Puzzle.Sudoku.Solve: takes a step bound (`fuel`), because the source's loop has no termination measure. When the bound runs out it restores the board and answers OutOfFuel.
- Puzzle.Sudoku.Solve: does not prove that Unsolvable means the puzzle has no solution. The proved promise is only that the board is restored.
- Puzzle.Sudoku.Solve: for a Killer puzzle, it does not prove that the cages' sums hold in the solution. Only the Classic rules are proved of the result.
- Puzzle.Sudoku.Assign: requires only that the board has all 81 cells of the grid, cage mates in the grid and not the cell itself, and well-formed indirect cages. The source's precondition that the value is a candidate is not required; it is the hypothesis of the soundness clause.
- Puzzle.Sudoku.Solve: requires a sound board: values and candidates are digits, an assigned cell has no candidates, no two assigned peers hold the same value, and no open cell keeps an assigned peer's value as a candidate. The source's `solve` accepts any board. A board on which two peers hold the same value, which the public `assign` can produce when given a value that is not a candidate, is excluded. The callers the model covers keep the board sound: `change_entry` with a digit no peer holds, `clear_entry`, `clear`, and assignment of candidates (Classic.ChangedKeepsSound, ClearedKeepsSound, StruckKeepsSound).
- Puzzle.Sudoku.ConnectCages: requires the Killer variant, and each cage to list distinct cells of the grid (the source documents a cage's coordinates as a set).
- Cages.WireAllMembers and Cages.ResidualOfDisjoint: assume disjoint cages. The wiring methods themselves compute the source's result for any cages of distinct cells, disjoint or not. A cage that lists a cell twice is excluded: the source would make that cell its own cage mate, the model does not.
- Puzzle.Sudoku.AttachIndirect: builds the list of a residual's cells once per residual and gives that list to each of its cells. The source builds one list per cell, each in the set's iteration order, which the model does not pin down.
- Puzzle.Sudoku.UpdateValidValues: stores the reordered indirect cages in the cell once all of them are done. The source reorders each list in place as it goes. Nothing in between reads those lists, so the resulting board is the same.
- The line `if len(new_valid_values[i]) == 1` (sudoku.py:708) tests the set of reachable values rather than the narrowed candidates. The model tests the same set, as written. Reachable values are always candidates, so both tests agree.
- Set iteration order: `next(iter(...))` (sudoku.py:65, 144), the loop over a vertex's candidates (sudoku.py:121, 732) and `list(self.cage_entries)` (sudoku.py:672) are modelled as arbitrary picks. The order chosen is exposed as a ghost result.
- The search in `_record_state` for the cell by object identity (sudoku.py:146-148) is replaced by passing the coordinate.
- Object identity and aliasing of vertices. Cells are named by coordinates, and snapshots are board values.
- Random puzzle generation: `generate_puzzle` and `_fill_random_entries` (sudoku.py:280-317, 439-516). It depends on `random` and on retry loops; only its deterministic helpers `_possible_adjacent` and `_connected` are modelled.
- Pickle loading: `generate` (sudoku.py:300-304, 594-600) and `sudoku_dataset`. This is file I/O.
- `print_puzzle` (sudoku.py:217-230), `python_ta` checks and `interface.py` (drawing and event handling). interface.py is not part of this model.
