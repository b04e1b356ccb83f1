# Mortar firing-solution core, modelled in Dafny

This project models the two elevation computations of the `mortar`
firing-solution calculator (`calculate.py`):

- the **range-table interpolator** (`calculate_elevation`): reject a
  relative elevation outside [-200, 200], select the NEAR [50, 500),
  MEDIUM [500, 2000) or FAR [2000, 4050) distance bracket, locate the
  enclosing grid cell of that bracket's range table (rows every 50 m of
  distance from the bracket's lower bound, columns every 5 m of relative
  elevation from -200), and blend the cell's four corners bilinearly;
- the **solution aggregator** (`get_ballistic_solution`): try the
  ammunition classes NEAR (70 m/s), MEDIUM (140 m/s) and FAR (200 m/s) in
  that order against the closed-form solver and report, in two paired
  lists, the elevation and class of every class the solver can serve.

Files:

- `wrappers.dfy` — `Option`.
- `ammo.dfy` — the constants of the calculator and the `AmmoClass`
  datatype (label, bracket, muzzle velocity, declared order).
- `range_table.dfy` — the interpolator as pure functions over
  `seq<seq<real>>` tables, with the lemmas about it.
- `solution.dfy` — the aggregator as a method with a loop, the solver
  being a function parameter, with the lemmas about its contract.

Modelling decisions:

- Numbers are Dafny `real`s, so the interpolation is exact; Python's
  `int()` is modelled as truncation toward zero (`Trunc`), and
  `RowColAreFloors` shows it equals floor wherever the source uses it.
- `calculate_elevation`'s outcome is the datatype `Elevation`
  (`ElevationOutOfRange`, `DistanceOutOfRange`, `Interpolated`);
  `Elevation.ToTuple` gives the pair the source returns: `(0, "None")`,
  `(0, "NONE")` and `(value, label)` respectively. The two failure labels
  stay distinct.
- An out-of-bounds table read is a fatal error in the source, so
  `CalculateElevation` requires `Readable`: the cell the query reaches
  exists in the selected table. `CoveringTablesSuffice` and
  `CoveringTablesNeeded` show this holds for every query exactly when each
  table has at least 10 (NEAR), 31 (MEDIUM) or 42 (FAR) rows, the first
  10, 31 or 42 of which have at least 82 columns. A table with one column
  per 5 m sample of [-200, 200] has only 81 columns; with such a table the
  source raises `IndexError` at a relative elevation of exactly 200, which
  its guard admits: the cell column is 80 and the lookup reads column 81
  although the elevation weight is 0 there (`GridPointCell`). The width of
  the shipped tables is not part of this model, so this is recorded as a
  requirement on the tables, not as a defect.
- Interpolation is continuous within one bracket's table
  (`CellEdgesAgree`), but at the bracket ends 500 and 2000 the lookup
  switches table, and the value jumps unless the last row of the lower
  bracket's table equals the first row of the next one (`BracketSwitch`).
- The closed-form solver (`calculate_elevation2`) is the parameter
  `solve: (real, real, real) -> Option<real>` of the aggregator; `None`
  stands for both an exception and a NaN result, which the source treats
  alike.
- The aggregator reports classes as `AmmoClass` values; their
  `Label()` is the string the source appends.

## Model

| member | source | states |
|---|---|---|
| `Ammo.AmmoClass.Max` | calculate.py:4-9 | every bracket is a non-empty interval: its lower bound is below its upper bound |
| `Ammo.AmmoClass.Min` | calculate.py:4-8 | the bracket lower bounds are 50 for NEAR and, the brackets being contiguous, the NEAR upper bound 500 for MEDIUM and the MEDIUM upper bound 2000 for FAR |
| `Ammo.AmmoClass.Label` | calculate.py:96 | the class's label is its entry in the list "NEAR", "MEDIUM", "FAR", and differs from both failure labels "None" and "NONE" |
| `Ammo.AmmoClass.MuzzleVelocity` | calculate.py:15-17 | the class's muzzle velocity is its entry in the list 70, 140, 200, and is positive |
| `Ammo.AmmoClass.Rank` | calculate.py:95-96 | the class sits at that position of the declared order NEAR, MEDIUM, FAR |
| `RangeTable.Trunc` | calculate.py:70-71 | `int()` truncates toward zero: the result is within one of the argument, on the zero side |
| `RangeTable.SelectBracket` | calculate.py:51-68 | the brackets are disjoint and cover [50, 4050): the result is `Some(b)` exactly when the distance lies in `b`'s half-open interval, and `None` exactly outside [50, 4050) |
| `RangeTable.TableFor` | calculate.py:54-65 | the table used for a bracket is the one at the class's position among the near, medium and far tables |
| `RangeTable.Row` | calculate.py:70 | `int((distance - min) / 50)` via `Trunc`: for a distance at or above the bracket minimum, the row is non-negative and its distance sample is at or below the distance, the next row's above it |
| `RangeTable.Col` | calculate.py:71 | `int((rel_elevation + 200) / 5)` via `Trunc`: for an elevation at or above -200, the column is non-negative and its sample is at or below the elevation, the next column's above it |
| `RangeTable.Alpha` | calculate.py:76 | the distance weight lies in [0, 1) and is the offset of the distance from the cell's lower row, in 50 m units |
| `RangeTable.Beta` | calculate.py:77 | the elevation weight lies in [0, 1) and is the offset of the relative elevation from the cell's lower column, in 5 m units |
| `RangeTable.Cell.Min` | calculate.py:72-75 | the smallest of the four corner values |
| `RangeTable.Cell.Max` | calculate.py:72-75 | the largest of the four corner values |
| `RangeTable.CellAt` | calculate.py:72-75 | the four corners read from rows row, row + 1 and columns col, col + 1, oriented so that the blend at weights (0,0), (1,0), (0,1), (1,1) returns exactly those four table entries |
| `RangeTable.Lerp` | calculate.py:79-80 | the one-axis blend moves from `x` toward `y` by the fraction `t`, giving `x` at 0 and `y` at 1 |
| `RangeTable.LerpBetween` | calculate.py:79-80 | a linear blend with weight in [0, 1] lies between its two end values |
| `RangeTable.Bilinear` | calculate.py:79-81 | the two-stage blend equals the sum of the four corners weighted by (1-α)(1-β), α(1-β), (1-α)β and αβ |
| `RangeTable.BilinearWeights` | calculate.py:79-81 | for α, β in [0, 1] those four weights are non-negative and sum to one, so the blend is a convex combination of the corners |
| `RangeTable.BilinearBounded` | calculate.py:79-81 | for α, β in [0, 1] the blend lies between the smallest and the largest corner |
| `RangeTable.Elevation.ToTuple` | calculate.py:47-83 | the returned pair is `(0, "None")` exactly for a rejected relative elevation, `(0, "NONE")` exactly for a distance outside all brackets, and `(interpolated value, class label)` otherwise |
| `RangeTable.CalculateElevation` | calculate.py:46-83 | relative elevation outside [-200, 200] gives the elevation failure whatever the distance and tables; otherwise a distance outside [50, 4050) gives the distance failure; otherwise the result carries the bracket that holds the distance, the enclosing cell is in bounds, the value is the bilinear blend of that cell's corners at weights `Alpha` and `Beta`, and it lies between the cell's smallest and largest corner |
| `RangeTable.RowColAreFloors` | calculate.py:70-71 | in the lookup branch the truncated row and column quotients are non-negative and equal their floors |
| `RangeTable.GridAligned` | calculate.py:70-83 | at a grid point (distance offset a multiple of 50, elevation offset a multiple of 5) the result is exactly the tabulated entry with that bracket's label |
| `RangeTable.CellEdgesAgree` | calculate.py:76-81 | within one table, neighbouring cells give the same value on their shared edge, so the surface interpolated from that table is continuous across cell boundaries |
| `RangeTable.BracketSwitch` | calculate.py:54-83 | along a grid column, distances in the last 50 m of NEAR or MEDIUM blend that table's last two rows, while the bracket's end distance returns the next table's first row: continuity there needs the two rows to agree |
| `RangeTable.RowCount` | calculate.py:4-10 | the row count needed by a bracket is one more than the number of 50 m steps in the bracket |
| `RangeTable.CellIndexBounds` | calculate.py:70-75 | every in-bracket, in-range query reaches a cell whose row is at most RowCount - 2 and whose column is at most 80 |
| `RangeTable.CoveringTablesSuffice` | calculate.py:70-75 | tables with at least RowCount rows, the first RowCount of which have at least 82 columns, make all four corner reads in bounds for every query |
| `RangeTable.CoveringTablesNeeded` | calculate.py:70-75 | tables whose reads are in bounds for every query have at least RowCount rows, the first RowCount of which have at least 82 columns |
| `RangeTable.GridPointCell` | calculate.py:70-75 | the query at grid row `row` with relative elevation 200 reaches row `row` and column 80, so a table readable for every query has column 81 in that row |
| `Solution.GetBallisticSolution` | calculate.py:92-107 | the two lists have equal length, the classes appear in declared order without repeats, a class appears exactly when the solver returns a value for its muzzle velocity, and its elevation is that value; classes without a value are skipped |
| `Solution.DeclaredOrderUnique` | calculate.py:95-103 | two class lists in declared order with the same members are equal |
| `Solution.SolutionsUnique` | calculate.py:92-107 | the aggregator's contract determines both of its lists uniquely |

## Left out

- `calculate_distance_bearing` (calculate.py:19-33): Euclidean norm, `arccos` and the 2-D cross product on floats cannot be stated exactly over reals; coinciding grids make it divide by zero.
- `calculate_elevation2` (calculate.py:85-90): its trigonometry and square roots are not modelled; it is the abstract solver parameter of the aggregator, with `None` for an exception or NaN.
- `load_table`, `load_range_tables` (calculate.py:35-44): CSV file reading; the tables are inputs.
- `print_solution` and the interactive correction loop (calculate.py:109-147): console I/O.
- The two `print` calls in `calculate_elevation` (calculate.py:48, 67): output only, no effect on the result.
- Floating point: rounding, NaN and infinite inputs (a NaN distance or elevation passes or fails the source's comparisons differently) are not modelled; all quantities are exact reals.
- Table rows of different lengths: numpy tables are rectangular; the model only requires the two rows of the reached cell to be long enough.
