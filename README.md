# Harmonic relaxation solvers, modelled in Dafny

The repository computes discrete harmonic fields on rectangular grids. Fixed
cells hold boundary values, and every free cell is relaxed towards the
average of its four neighbours until the largest change in one sweep is
within a threshold epsilon. Two CPU solvers are modelled here, each in its
own module.

- `RedBlackSor` (red_black_sor.dfy) models `harmonic_sor_2d_cpu`.
  - The solver works on a parameter block `Harmonic`, a class whose fields
    the solver updates. It holds the dimensions `m`, a flat row-major
    buffer `u`, a lock mask, `epsilon`, `omega` and `currentIteration`.
  - After its guard, the solver computes an iteration floor, the largest
    grid dimension.
  - It then runs in-place red-black sweeps. Sweep k relaxes the unlocked
    cells of the strict interior that have colour (x0 + x1) mod 2 ==
    (k + 1) mod 2.
  - It stops once the last sweep's largest change is at most epsilon and
    the floor has been reached.
  - Each sweep is proved against a value-level relation, `IsSorSweep`:
    every updated cell takes `(1 - omega) * old + omega / 4 * (sum of its
    four neighbours)`, computed from the grid as it was before the sweep.
    Because the neighbours of a visited cell have the other colour, the
    in-place writes never disturb a later read.
- `CpuHarmonic` (cpu_harmonic.dfy) models `cpu_harmonic_2d`.
  - The field `u` is an `array2<real>`. A scratch copy `uPrime` is made
    first.
  - Sweeps with an even iteration count read `u` and write `uPrime`. Sweeps
    with an odd count read `uPrime` and write `u`.
  - A cell is fixed when its value in `u` is negative, and is then skipped.
  - Neighbours are read through indices clamped to the grid.
  - Jacobi reads all four neighbours from the source buffer. Gauss-Seidel
    reads the upper and left neighbours from the buffer being written. The
    branch labelled SOR reads exactly as Jacobi does.
  - The loop may stop only after an even number of sweeps, so the final
    values are in `u`.
  - Each sweep is proved against the value-level relations `IsStep` and
    `IsDelta`.
- `Common` (common.dfy) holds the shared vocabulary:
  - the status codes;
  - `fabs` and `std::max` over the reals;
  - the row-major order in which both solvers visit cells.

Neither solver's outer loop is guaranteed to terminate, because stopping
depends on numerical convergence. The model therefore bounds each outer loop
by a `fuel` argument and states what holds whenever the solver returns.

## Model

| member | source | states |
|---|---|---|
| Common.Abs | src/harmonic/harmonic_sor_cpu.cpp:87-90 | the absolute difference is non-negative and is the value or its negation |
| Common.Max | harmonic/src/cpu.cpp:86 | the running maximum is at least both arguments and equals one of them |
| RedBlackSor.Idx | src/harmonic/harmonic_sor_cpu.cpp:65 | the flat index `x0 * m1 + x1` of a grid cell lies inside the m0 * m1 buffer |
| RedBlackSor.IdxCovers | src/harmonic/harmonic_sor_cpu.cpp:65 | every buffer position is the flat index of exactly the cell (p / m1, p % m1), so the layout covers the buffer |
| RedBlackSor.IdxDistinct | src/harmonic/harmonic_sor_cpu.cpp:65 | distinct cells have distinct flat indices, so a write to one cell never changes another |
| RedBlackSor.RowOffset | src/harmonic/harmonic_sor_cpu.cpp:61 | the row offset is 0 or 1 |
| RedBlackSor.ColourAlternates | src/harmonic/harmonic_sor_cpu.cpp:63 | stepping the column by one changes the colour and stepping by two keeps it, so `x1 += 2` stays on one colour |
| RedBlackSor.ColumnColour | src/harmonic/harmonic_sor_cpu.cpp:61-63 | every column the inner loop reaches in row x0 has the colour of sweep k |
| RedBlackSor.OffsetSkipsOtherColour | src/harmonic/harmonic_sor_cpu.cpp:61-63 | when a row starts at column 2, the skipped column 1 has the other colour |
| RedBlackSor.NeighboursHaveOtherColour | src/harmonic/harmonic_sor_cpu.cpp:61-63 | none of the four neighbours of a cell visited by sweep k is visited by sweep k |
| RedBlackSor.SorCell | src/harmonic/harmonic_sor_cpu.cpp:79-84 | the update moves a cell omega times the way from its value to the mean of its four neighbours; `SorCellFixedPoint` and `SorCellUnitOmega` follow from this |
| RedBlackSor.SorCellFixedPoint | src/harmonic/harmonic_sor_cpu.cpp:79-84 | for every omega, a cell equal to the average of its neighbours is left unchanged by the update |
| RedBlackSor.SorCellUnitOmega | src/harmonic/harmonic_sor_cpu.cpp:79-84 | with omega = 1 the update is the plain four-point average (Gauss-Seidel) |
| RedBlackSor.SweepKeepsUnvisited | src/harmonic/harmonic_sor_cpu.cpp:58-67 | a sweep changes no cell of the outer ring, no locked cell and no cell of the colour it does not visit |
| RedBlackSor.SweepFixedPoint | src/harmonic/harmonic_sor_cpu.cpp:54-94 | when every cell a sweep updates is already harmonic, the sweep changes nothing and reports delta 0 |
| RedBlackSor.AllHarmonicStep | src/harmonic/harmonic_sor_cpu.cpp:58-84 | when every unlocked interior cell equals the mean of its four neighbours, a sweep of either colour yields the same grid |
| RedBlackSor.AllHarmonicIsFixedPoint | src/harmonic/harmonic_sor_cpu.cpp:53-96 | from such a grid, a sweep changes nothing and reports delta 0 |
| RedBlackSor.AllHarmonicRun | src/harmonic/harmonic_sor_cpu.cpp:53-101 | a run of sweeps from such a grid stays at that grid |
| RedBlackSor.RunKeepsFrozen | src/harmonic/harmonic_sor_cpu.cpp:53-101 | after any number of sweeps the outer ring and the locked cells hold their initial values |
| RedBlackSor.ReadsSeeBefore | src/harmonic/harmonic_sor_cpu.cpp:69-84 | midway through a sweep, a visited cell and its four neighbours still hold their pre-sweep values, so the in-place update equals the update computed from the pre-sweep grid |
| RedBlackSor.AcceptsInput | src/harmonic/harmonic_sor_cpu.cpp:37-39 | the guard: no null pointer, epsilon > 0 and 1 <= omega < 2; `HarmonicSor2d` reports invalid data if and only if the guard fails |
| RedBlackSor.MaxDimension | src/harmonic/harmonic_sor_cpu.cpp:45-48 | mMax is the maximum of m[0..n-1]: an upper bound attained by some entry, and 0 when n = 0 |
| RedBlackSor.VisitCell | src/harmonic/harmonic_sor_cpu.cpp:65-94 | one step of the inner loop: skips a locked cell, otherwise writes the relaxed value and raises the running maximum to the cell's change |
| RedBlackSor.SweepRow | src/harmonic/harmonic_sor_cpu.cpp:61-95 | one row of a sweep: every cell of the row that the sweep updates is relaxed, and the running maximum covers the row |
| RedBlackSor.RedBlackSweep | src/harmonic/harmonic_sor_cpu.cpp:54-96 | the in-place sweep produces exactly the value-level sweep `IsSorSweep`, and its delta is the largest change over the updated cells (0 when none) |
| RedBlackSor.SweepDeltaUnique | src/harmonic/harmonic_sor_cpu.cpp:86-94 | a sweep has exactly one delta: two values that both are the largest change over the updated cells are equal |
| RedBlackSor.NoEarlierStopExtend | src/harmonic/harmonic_sor_cpu.cpp:53 | when the loop test held after count sweeps, no count up to and including it passed the stopping test |
| RedBlackSor.StopFloor | src/harmonic/harmonic_sor_cpu.cpp:45-53 | with mMax the largest of m[0..n-1], a count below mMax is below some dimension |
| RedBlackSor.Iteration | src/harmonic/harmonic_sor_cpu.cpp:54-100 | one pass of the loop body: the count goes up by one, the run grows by the new grid, and delta is the largest change of the sweep; from a grid at rest the grid stays unchanged and delta is 0 |
| RedBlackSor.Relax | src/harmonic/harmonic_sor_cpu.cpp:50-101 | `currentIteration` starts at 0 and counts the sweeps; the grids form a run of successive sweeps; on success at least one sweep ran, the count reached mMax and the last delta is at most epsilon; no earlier count passed the stopping test: after each earlier sweep the delta was above epsilon or the count was below mMax, so success comes at the first count that passes; from a grid at rest, with enough fuel, it succeeds after exactly max(1, mMax) sweeps with the grid unchanged and delta 0 |
| RedBlackSor.HarmonicSor2d | src/harmonic/harmonic_sor_cpu.cpp:34-104 | invalid data is reported exactly when a pointer is null, epsilon <= 0 or omega is outside [1, 2), and then nothing changes; otherwise the run ends with the frozen cells unchanged, the count at least every dimension and the last delta within epsilon; no earlier count passed the stopping test: after each earlier sweep the delta was above epsilon or the count was below some dimension; from a grid at rest, with enough fuel, it succeeds with u unchanged, delta 0 and the count equal to 1 or to a dimension |
| CpuHarmonic.ClampUp | harmonic/src/cpu.cpp:61-63 | the clamped next index lies in the grid; it is i + 1 inside the grid and i on the last row or column |
| CpuHarmonic.ClampDown | harmonic/src/cpu.cpp:62-64 | the clamped previous index is not negative and at most i; it is i - 1 when i > 0 and 0 when i = 0 |
| CpuHarmonic.AsSeen | harmonic/src/cpu.cpp:71-79 | the value of a cell of the buffer being written as the row-major sweep at (i, j) reads it: the new value for a cell visited before (i, j), the old value otherwise; `SeenNow` proves that the buffer holds exactly this during the sweep |
| CpuHarmonic.CellValue | harmonic/src/cpu.cpp:61-81 | the value written at a free cell is non-negative; away from the border Jacobi and the SOR branch average the four neighbours of the source buffer, while Gauss-Seidel takes the upper and left ones as newly written; at (0, 0) Gauss-Seidel reads the cell's own old value twice. `SorIsJacobi`, `SweepDetermined` and `SweepBounded` build on it |
| CpuHarmonic.NeighbourMean | harmonic/src/cpu.cpp:69-81 | every written value is non-negative and at most the largest absolute value of the four neighbours read |
| CpuHarmonic.SorIsJacobi | harmonic/src/cpu.cpp:68-82 | the branch labelled SOR performs exactly the Jacobi sweep, in both directions of the equivalence |
| CpuHarmonic.SweepDetermined | harmonic/src/cpu.cpp:53-83 | the buffer a sweep writes is uniquely determined by the variant, the fixed cells, the source buffer and the old destination buffer |
| CpuHarmonic.SweepBounded | harmonic/src/cpu.cpp:67-83 | maximum principle for one sweep: when both buffers lie in [-bound, bound], so does the buffer written |
| CpuHarmonic.BalancedIsFixedPoint | harmonic/src/cpu.cpp:53-86 | when both buffers hold a field whose free cells already equal their neighbour mean, a sweep changes nothing and reports delta 0, for every variant and parity |
| CpuHarmonic.BalancedStep | harmonic/src/cpu.cpp:53-86 | a sweep over a balanced field held in both buffers writes back the same pair of buffers |
| CpuHarmonic.BalancedRunConstant | harmonic/src/cpu.cpp:50-93 | a run of sweeps from a balanced field held in both buffers stays constant |
| CpuHarmonic.DeltaUnique | harmonic/src/cpu.cpp:51-86 | a sweep has exactly one delta: two values that both are the largest change over the free cells are equal |
| CpuHarmonic.NoEarlierStopExtend | harmonic/src/cpu.cpp:50 | when the loop test held after count sweeps, no even count up to and including it had a delta within epsilon |
| CpuHarmonic.StepKeepsFixed | harmonic/src/cpu.cpp:53-83 | a sweep writes no fixed cell in either buffer, and a free cell stays non-negative, so it never becomes fixed |
| CpuHarmonic.RunKeepsFixed | harmonic/src/cpu.cpp:50-93 | over a whole run from u in both buffers, every fixed cell keeps its initial value in both buffers and every free cell stays non-negative |
| CpuHarmonic.RunBounded | harmonic/src/cpu.cpp:50-93 | maximum principle over a run: when the initial field lies in [-bound, bound], both buffers stay within it after every sweep |
| CpuHarmonic.CopyBuffer | harmonic/src/cpu.cpp:39-45 | uPrime is a fresh buffer of the same shape that holds a cell-for-cell copy of u |
| CpuHarmonic.UpdateCell | harmonic/src/cpu.cpp:66-83 | an even sweep writes uPrime[i, j] and an odd sweep writes u[i, j]; the value written is the variant's neighbour mean, and no other cell of either buffer changes |
| CpuHarmonic.VisitCell | harmonic/src/cpu.cpp:55-86 | one step of the inner loop: skips a negative (fixed) cell, otherwise writes it and raises the running maximum to the absolute difference of u and uPrime at the cell |
| CpuHarmonic.SweepRow | harmonic/src/cpu.cpp:54-87 | one row of a sweep: every cell of the row follows the sweep's rule, and the running maximum covers the row |
| CpuHarmonic.SeenNow | harmonic/src/cpu.cpp:53-79 | midway through a sweep at (i, j), every cell of the buffer being written holds the value `AsSeen` gives |
| CpuHarmonic.Sweep | harmonic/src/cpu.cpp:51-88 | one sweep writes only the buffer its parity selects, produces exactly the value-level step `IsStep`, and returns the largest absolute difference of u and uPrime over free cells (0 when there is none) |
| CpuHarmonic.Iterate | harmonic/src/cpu.cpp:47-93 | the buffers form a run of alternating sweeps; on success the number of sweeps is even and at least 2, and the last delta is at most epsilon; no earlier even count had a delta within epsilon, so the loop stops at the first count that passes; from a balanced field in both buffers, with fuel for two sweeps, it succeeds after exactly two sweeps with u unchanged and delta 0 |
| CpuHarmonic.CpuHarmonic2d | harmonic/src/cpu.cpp:30-104 | invalid data is reported exactly when m or u is null or epsilon <= 0, and then u is untouched; otherwise fixed cells are unchanged, free cells end non-negative, the field stays within any bound of the initial field, and on success the final sweep (an odd one) wrote u with delta at most epsilon, and no earlier even count had a delta within epsilon; from a balanced field, with fuel for two sweeps, it succeeds after exactly two sweeps with u unchanged and delta 0 |

## Left out

- Printing is left out: the error messages (src/harmonic/harmonic_sor_cpu.cpp:40, harmonic/src/cpu.cpp:34), the per-sweep progress lines (src/harmonic/harmonic_sor_cpu.cpp:98, harmonic/src/cpu.cpp:90) and the final iteration count (harmonic/src/cpu.cpp:95). They are an output side channel.
- The heap allocation and freeing of `uPrime` (harmonic/src/cpu.cpp:39-41, 98-101) are left out. The scratch buffer is a fresh Dafny array, reclaimed by the runtime.
- The `float **` field is modelled as a single `array2<real>`. Rows that alias each other, or rows of different lengths, are not modelled.
- IEEE-754 arithmetic is not modelled: `float` and `double` are `real`. Rounding, NaN, infinities and the casts are left out.
- `signbit` is modelled as `< 0.0`, so -0.0 counts as a free cell here.
- CpuHarmonic2d: the source loops until its stopping test holds. The model stops after `fuel` sweeps with `FuelExhausted`, and states only what holds at that point.
- RedBlackSor.HarmonicSor2d: the same fuel bound applies, and it is also the reason `Relax` and `Iterate` take `fuel`. No claim is made that either loop converges.
- The iteration counters `currentIteration` and `iterations` are `unsigned int` in the source and `nat` here. Their 32-bit wrap-around is not modelled.
- RedBlackSor.Idx: the flat index `x0 * m[1] + x1` is `unsigned int` arithmetic in the source (src/harmonic/harmonic_sor_cpu.cpp:65, 69, 79-84) but unbounded here. A grid of 2^32 or more cells, where the source's index wraps and reads or writes the wrong cell, is not modelled. The same holds for `cpu_harmonic_2d` with a dimension of 2^31 or more, where `(int)i - 1` (harmonic/src/cpu.cpp:62, 64) and the `int` copy loop (harmonic/src/cpu.cpp:40-42) overflow.
- The commented-out log-sum-exp lines (src/harmonic/harmonic_sor_cpu.cpp:71-78) and the commented-out 3D and 4D prototypes (src/harmonic/harmonic_sor_cpu.cpp:106-108) are dead code and are left out.
- A `CPUHarmonicVariant` value outside the three named variants would make the source write nothing and still compute delta. `Variant` has exactly three constructors, so that case is not modelled.
- Neither solver checks the grid shape. The model requires the shape that each one relies on only for inputs its guard accepts:
  - `RedBlackSor.Shaped`: m holds at least two entries and at least n entries; m[0] >= 1 and m[1] >= 1, because `m[0] - 1` and `m[1] - 1` are unsigned and would wrap for a zero dimension; u and locked hold m[0] * m[1] cells.
  - `CpuHarmonic2d`: m holds at least two entries, and u is m[0] by m[1]. The clamps are only evaluated inside the grid, so no lower bound on the dimensions is needed.
- harmonic.h, harmonic_sor_cpu.h, error_codes.h, constants.h and include/cpu.h are not part of this model. `Status` stands for the return codes they define: 0 or `INERTIA_SUCCESS` for success, and 1 or `INERTIA_ERROR_INVALID_DATA` for invalid data.

## Code and textbook definitions

In each case below the model follows the code.

- Textbook SOR blends the Gauss-Seidel average with the old value through omega. The branch labelled SOR in `cpu_harmonic_2d` (harmonic/src/cpu.cpp:73, 81) does not: it is textually the Jacobi branch and uses no omega, so `CpuHarmonic.SorIsJacobi` holds. Only `harmonic_sor_2d_cpu` applies omega.
- Neither solver rejects degenerate dimensions; see "Left out".
- Textbook Gauss-Seidel reads every already-visited neighbour with its new value. The code follows this rule: in row-major order the upper and left neighbours are exactly the visited ones, and they are read from the buffer being written. At row 0 or column 0, however, the clamp makes the upper or left index the cell itself, which has not been written yet, so its old value is read. `CpuHarmonic.CellValue` states this for the corner (0, 0), and `CpuHarmonic.AsSeen` in general.
- The two minimum-iteration rules differ, as the code has them:
  - `harmonic_sor_2d_cpu` requires at least mMax sweeps.
  - `cpu_harmonic_2d` requires an even, non-zero number of sweeps, which is therefore at least 2.
