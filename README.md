# North-west corner method, in Dafny

This project models the transportation-problem heuristic of the
repository's Streamlit app: `north_west_corner_method` in `fauzi.py`. It
also models the total-cost sum that the app shows next to the result.

Given the supply of each of m sources, the demand of each of n
destinations and an m×n cost matrix, the heuristic starts a cursor at cell
(0, 0). On each pass it places `min(supply[i], demand[j])` on the cursor
cell and subtracts that amount from both remaining amounts. It then moves
down if the row's supply is used up and right if the column's demand is
used up; on the same pass it may do both. It stops once the cursor leaves
the grid. The cost matrix supplies only the shape.

The project has two files.

- `matrix.dfy` (module `Matrix`) holds whole-number matrices as sequences
  of rows, with row sums, column sums, the grand total and the element-wise
  product. It also holds the facts about sums that the proofs need.
- `north_west.dfy` (module `NorthWest`) holds the heuristic itself.
  - `NorthWestCorner` is a method over arrays with the source's `while`
    loop. It copies `supply` and `demand` into arrays of its own and
    updates them in place, as the source's `np.array` copies are updated.
    It writes into an `array2` that starts at zero.
  - `Place` is one placement of the loop body.
  - The specification is the pure function `Step`, which is one pass of the
    loop body on a `State` value. `Walk` repeats `Step` until the cursor
    leaves the grid, and `Final(supply, demand)` is `Walk` from the
    starting state. The method's loop invariant says that walking on from
    the current state reaches `Final(supply, demand)`. So the method's
    result is exactly `Final(supply, demand).allocation`. This is a
    function of supply and demand only, so no cost entry affects it.
  - The lemmas about `Final` state what the heuristic promises. They rest on
    the invariant `Invariant`, which `StepKeepsInvariant` and
    `WalkKeepsInvariant` show is preserved.

Supply and demand are `nat`, since the app reads them as whole,
non-negative numbers (`fauzi.py:72`, `fauzi.py:78`). The allocation holds
whole numbers. In the source it is a float matrix from `np.zeros`, but every
value written into it is one of those whole numbers.

## Model

| member | source | states |
|---|---|---|
| `NorthWest.NorthWestCorner` | fauzi.py:20-36 | The result is a newly allocated array, as `np.zeros` returns, with the shape of `cost` and equals `Final(supply, demand).allocation`, so it depends on no cost entry. No row ships more than its supply and no column receives more than its demand. When total supply ≤ total demand every row ships exactly its supply; when total demand ≤ total supply every column receives exactly its demand; so when the totals are equal both hold. The total shipped is min(total supply, total demand). The caller's arrays are not in any `modifies` clause, so they stay unchanged. |
| `NorthWest.Place` | fauzi.py:28-31 | The amount placed is the smaller of the row's remaining supply and the column's remaining demand. Afterwards the two working arrays and the allocation equal those of one `Step`. The cursor then moves down exactly when the row's remaining supply is 0, and right exactly when the column's remaining demand is 0. |
| `NorthWest.Step` | fauzi.py:28-35 | One pass adds the cursor cell, and only that cell, to the path of written cells. Afterwards the row's or the column's remaining amount is 0, so the cursor moves down, right or both. Remaining amounts stay `nat`: the subtraction never goes negative. |
| `NorthWest.Walk` | fauzi.py:27-35 | The loop ends with the cursor off the grid, after at most one pass per cursor move. The cursor never moves back, and the cells written so far stay a prefix of the path. |
| `NorthWest.StepKeepsInvariant` | fauzi.py:27-35 | One pass keeps every part of the loop invariant: remaining amount plus what is allocated equals the original, for each row and each column. Rows above the cursor and columns left of it are used up. The written cells form a staircase behind the cursor, every other cell is 0, and every written cell holds the minimum of its row's and column's amounts left when the cursor reached it. |
| `NorthWest.WalkKeepsInvariant` | fauzi.py:27-35 | Running the loop to its end keeps the invariant. |
| `NorthWest.InitialInvariant` | fauzi.py:21-26 | With full copies of supply and demand, an all-zero allocation and the cursor at (0, 0), the invariant holds before the first pass. |
| `NorthWest.Conclusion` | fauzi.py:27 | Once the loop condition fails, either every row or every column is used up. From the balances it follows that no row or column exceeds its amount, that the side with the smaller total is met exactly, and that the total shipped is the smaller total. |
| `NorthWest.FinalAmounts` | fauzi.py:27-36 | For every supply and demand, the returned allocation is m×n. Row sums are ≤ supply and column sums ≤ demand. Total supply ≤ total demand implies every row sum equals its supply, and total demand ≤ total supply implies every column sum equals its demand. The grand total is min(total supply, total demand). |
| `NorthWest.FinalPath` | fauzi.py:25-35 | The written cells start at (0, 0) and each moves down, right or both from the previous one. No cell is written twice, and fewer than m + n cells (passes) are written. Every cell off the path keeps its initial 0. Every cell on it holds the smaller of what its row and its column had left when the cursor reached it. |
| `NorthWest.StaircaseMonotone` | fauzi.py:32-35 | Along the cursor's path neither index decreases and no cell repeats. |
| `NorthWest.StaircaseLength` | fauzi.py:27 | A staircase of cursor moves inside an m×n grid has at most m + n - 1 cells. |
| `NorthWest.TotalCostBounds` | fauzi.py:95 | `TotalCost`, the sum of the element-wise product of allocation and cost, lies between lo and hi times the total shipped when every unit cost is between lo and hi. In particular it is non-negative for the non-negative costs the app accepts. |

## Left out

- `simplex` (`fauzi.py:9-18`) is not modelled. What it returns is decided by scipy's `linprog`, whose code is not part of this model, and its results are floating point.
- `assignment_problem` (`fauzi.py:38-41`) is not modelled. Its matching comes entirely from scipy's `linear_sum_assignment`, which is not part of this model.
- `main` (`fauzi.py:43-120`) is not modelled. It is the Streamlit interface: widgets, display, and parsing of text input.
- Imbalanced input is not rejected. The source has no check that total supply equals total demand: it stops when either side is used up. The model follows the code, and `FinalAmounts` states exactly what it then produces.
- `NorthWest.NorthWestCorner` requires `supply` to have exactly m entries and `demand` exactly n, where m×n is the shape of `cost`. The app guarantees this (`fauzi.py:71-79`, `fauzi.py:88`). With other lengths the source does not check anything. Extra entries are simply never read. With too few entries it still returns normally unless the cursor reaches a missing index: for example, supply [5] and demand [3, 2] with a 2×2 cost give [[3, 2], [0, 0]]. Only when the cursor reaches a missing index does it fail with an index error. Neither behaviour is modelled.
- The allocation in the source is a float matrix. It is modelled over whole numbers. This is exact while every supply and demand is at most 2^53, which float64 holds exactly; larger amounts are rounded in the source and not in the model. The float representation is not modelled.
- `NorthWest.TotalCostBounds`: `TotalCost` sums exact whole-number products. The source's total at `fauzi.py:95` multiplies the allocation by a float64 cost matrix (`fauzi.py:82`) and sums float64 values. These round once a value passes 2^53. For example, an allocation of 2^53 - 1 at unit cost 3 gives the float product 27021597764222972, while `TotalCost` gives 27021597764222973. So the total the app shows can differ from `TotalCost`, and for such large values it can fall outside the bounds stated here. Float rounding is not modelled.
- The aliasing of numpy arrays is not modelled. The source's `np.array` copies are modelled as fresh arrays, so they cannot alias the caller's.
