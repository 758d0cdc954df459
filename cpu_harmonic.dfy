/** The double-buffered relaxation solver `cpu_harmonic_2d`: the field `u`
    and a scratch copy `uPrime` take turns as the buffer a sweep reads and
    the buffer it writes; a cell is fixed when its value in `u` is negative. */
module CpuHarmonic {
  import opened Common

  /** The solver variant selected by the caller. */
  datatype Variant = Jacobi | GaussSeidel | Sor

  /** A snapshot of an m0 x m1 buffer, row by row. */
  type Grid = seq<seq<real>>

  predicate IsGrid(g: Grid, m0: nat, m1: nat)
  {
    |g| == m0 && forall i :: 0 <= i < m0 ==> |g[i]| == m1
  }

  // ---------------------------------------------------------------------
  // Neighbour indices and the cell formula.
  // ---------------------------------------------------------------------

  /** `std::min(n - 1, i + 1)`: the next index, clamped to the last one. */
  function ClampUp(i: nat, n: nat): (r: nat)
    requires i < n
    ensures r < n
    ensures i + 1 < n ==> r == i + 1
    ensures i + 1 == n ==> r == i
  {
    if n - 1 < i + 1 then n - 1 else i + 1
  }

  /** `std::max(0, (int)i - 1)`: the previous index, clamped to 0. */
  function ClampDown(i: nat): (r: nat)
    ensures r <= i
    ensures 0 < i ==> r == i - 1
    ensures i == 0 ==> r == 0
  {
    if (i as int) - 1 < 0 then 0 else i - 1
  }

  /** The value every variant writes: a quarter of the sum of the absolute
      values of four neighbours. It is never negative and never exceeds the
      largest of those absolute values. */
  function NeighbourMean(a: real, b: real, c: real, d: real): (r: real)
    ensures 0.0 <= r
    ensures r <= Max(Max(Abs(a), Abs(b)), Max(Abs(c), Abs(d)))
  {
    0.25 * (Abs(a) + Abs(b) + Abs(c) + Abs(d))
  }

  /** The value at (a, b) of the buffer being written, as a sweep that has
      reached (i, j) sees it: new values d' before (i, j), old values d from
      (i, j) on. */
  function AsSeen(d: Grid, d': Grid, m0: nat, m1: nat, a: nat, b: nat, i: nat, j: nat): real
    requires IsGrid(d, m0, m1) && IsGrid(d', m0, m1) && a < m0 && b < m1
  {
    if Before(a, b, i, j) then d'[a][b] else d[a][b]
  }

  /** The value a sweep writes at free cell (i, j), reading the source buffer
      s and the buffer being written, whose old contents are d and whose new
      contents are d'. Jacobi, and the branch labelled SOR, read all four
      neighbours from s; Gauss-Seidel reads the upper and left neighbours from
      the buffer being written. Away from the border the clamps are the
      identity and Gauss-Seidel sees the new values of the upper and left
      neighbours; in the corner (0, 0) both of its reads from the buffer being
      written fall on the cell itself, which still holds its old value. */
  function CellValue(variant: Variant, s: Grid, d: Grid, d': Grid, m0: nat, m1: nat, i: nat, j: nat): (r: real)
    requires IsGrid(s, m0, m1) && IsGrid(d, m0, m1) && IsGrid(d', m0, m1) && i < m0 && j < m1
    ensures 0.0 <= r
    ensures 0 < i < m0 - 1 && 0 < j < m1 - 1 ==>
              r == if variant == GaussSeidel
                   then NeighbourMean(s[i + 1][j], d'[i - 1][j], s[i][j + 1], d'[i][j - 1])
                   else NeighbourMean(s[i + 1][j], s[i - 1][j], s[i][j + 1], s[i][j - 1])
    ensures variant == GaussSeidel && i == 0 && j == 0 ==>
              r == NeighbourMean(s[ClampUp(0, m0)][0], d[0][0], s[0][ClampUp(0, m1)], d[0][0])
  {
    var ip, im, jp, jm := ClampUp(i, m0), ClampDown(i), ClampUp(j, m1), ClampDown(j);
    match variant
    case Jacobi => NeighbourMean(s[ip][j], s[im][j], s[i][jp], s[i][jm])
    case GaussSeidel =>
      NeighbourMean(s[ip][j], AsSeen(d, d', m0, m1, im, j, i, j), s[i][jp], AsSeen(d, d', m0, m1, i, jm, i, j))
    case Sor => NeighbourMean(s[ip][j], s[im][j], s[i][jp], s[i][jm])
  }

  // ---------------------------------------------------------------------
  // One sweep.
  // ---------------------------------------------------------------------

  /** d' is what one sweep writes over d, reading s, where g (the field `u`
      as the sweep found it) says which cells are fixed: a fixed cell keeps
      its old value, a free cell takes CellValue. */
  ghost predicate IsSweep(variant: Variant, g: Grid, s: Grid, d: Grid, d': Grid, m0: nat, m1: nat)
  {
    IsGrid(g, m0, m1) && IsGrid(s, m0, m1) && IsGrid(d, m0, m1) && IsGrid(d', m0, m1) &&
    forall i: nat, j: nat :: i < m0 && j < m1 ==> SweptCell(variant, g, s, d, d', m0, m1, i, j)
  }

  /** The sweep's rule at one cell. */
  predicate SweptCell(variant: Variant, g: Grid, s: Grid, d: Grid, d': Grid, m0: nat, m1: nat, i: nat, j: nat)
    requires IsGrid(g, m0, m1) && IsGrid(s, m0, m1) && IsGrid(d, m0, m1) && IsGrid(d', m0, m1)
    requires i < m0 && j < m1
  {
    d'[i][j] == if g[i][j] < 0.0 then d[i][j] else CellValue(variant, s, d, d', m0, m1, i, j)
  }

  /** The pair of buffers between sweeps. */
  datatype Buffers = Buffers(u: Grid, uPrime: Grid)

  /** One sweep of the solver: with an even iteration count it reads `u` and
      writes `uPrime`, with an odd one it reads `uPrime` and writes `u`. */
  ghost predicate IsStep(variant: Variant, even: bool, before: Buffers, after: Buffers, m0: nat, m1: nat)
  {
    if even then
      after.u == before.u && IsSweep(variant, before.u, before.u, before.uPrime, after.uPrime, m0, m1)
    else
      after.uPrime == before.uPrime && IsSweep(variant, before.u, before.uPrime, before.u, after.u, m0, m1)
  }

  /** At free cell (a, b) the two buffers differ by at most delta. */
  predicate ChangeWithin(g: Grid, x: Grid, y: Grid, m0: nat, m1: nat, a: nat, b: nat, delta: real)
    requires IsGrid(g, m0, m1) && IsGrid(x, m0, m1) && IsGrid(y, m0, m1) && a < m0 && b < m1
  {
    0.0 <= g[a][b] ==> Abs(x[a][b] - y[a][b]) <= delta
  }

  /** The largest change a sweep reports: the maximum over free cells of
      |u - uPrime| once the sweep is over (0 when there is no free cell). */
  ghost predicate IsDelta(g: Grid, u: Grid, uPrime: Grid, m0: nat, m1: nat, delta: real)
    requires IsGrid(g, m0, m1) && IsGrid(u, m0, m1) && IsGrid(uPrime, m0, m1)
  {
    0.0 <= delta &&
    (forall i: nat, j: nat :: i < m0 && j < m1 ==> ChangeWithin(g, u, uPrime, m0, m1, i, j, delta)) &&
    (delta == 0.0 ||
     exists i: nat, j: nat :: i < m0 && j < m1 && 0.0 <= g[i][j] && Abs(u[i][j] - uPrime[i][j]) == delta)
  }

  /** The branch labelled SOR performs the same sweep as Jacobi. */
  lemma SorIsJacobi(g: Grid, s: Grid, d: Grid, d': Grid, m0: nat, m1: nat)
    ensures IsSweep(Sor, g, s, d, d', m0, m1) <==> IsSweep(Jacobi, g, s, d, d', m0, m1)
  {
    if IsGrid(g, m0, m1) && IsGrid(s, m0, m1) && IsGrid(d, m0, m1) && IsGrid(d', m0, m1) {
      forall i: nat, j: nat | i < m0 && j < m1
        ensures SweptCell(Sor, g, s, d, d', m0, m1, i, j) <==> SweptCell(Jacobi, g, s, d, d', m0, m1, i, j)
      {
      }
    }
  }

  /** CellValue at (i, j) reads the buffer being written only at cells
      before (i, j), so two candidate results that agree there give it the
      same value. */
  lemma CellValueReadsBefore(variant: Variant, s: Grid, d: Grid, x: Grid, y: Grid, m0: nat, m1: nat, i: nat, j: nat)
    requires IsGrid(s, m0, m1) && IsGrid(d, m0, m1) && IsGrid(x, m0, m1) && IsGrid(y, m0, m1)
    requires i < m0 && j < m1
    requires 0 < i ==> x[i - 1][j] == y[i - 1][j]
    requires 0 < j ==> x[i][j - 1] == y[i][j - 1]
    ensures CellValue(variant, s, d, x, m0, m1, i, j) == CellValue(variant, s, d, y, m0, m1, i, j)
  {
  }

  /** A sweep's result is determined by what it reads: two results of the
      same sweep agree at every cell, by induction in visiting order. */
  lemma {:induction false} SweepDeterminedAt(variant: Variant, g: Grid, s: Grid, d: Grid, x: Grid, y: Grid,
                                             m0: nat, m1: nat, i: nat, j: nat)
    requires IsSweep(variant, g, s, d, x, m0, m1) && IsSweep(variant, g, s, d, y, m0, m1)
    requires i < m0 && j < m1
    ensures x[i][j] == y[i][j]
    decreases i, j
  {
    if 0 < i {
      SweepDeterminedAt(variant, g, s, d, x, y, m0, m1, i - 1, j);
    }
    if 0 < j {
      SweepDeterminedAt(variant, g, s, d, x, y, m0, m1, i, j - 1);
    }
    assert SweptCell(variant, g, s, d, x, m0, m1, i, j) && SweptCell(variant, g, s, d, y, m0, m1, i, j);
    CellValueReadsBefore(variant, s, d, x, y, m0, m1, i, j);
  }

  /** The sweep relation is a function of its inputs. */
  lemma SweepDetermined(variant: Variant, g: Grid, s: Grid, d: Grid, x: Grid, y: Grid, m0: nat, m1: nat)
    requires IsSweep(variant, g, s, d, x, m0, m1) && IsSweep(variant, g, s, d, y, m0, m1)
    ensures x == y
  {
    forall i | 0 <= i < m0
      ensures x[i] == y[i]
    {
      forall j | 0 <= j < m1
        ensures x[i][j] == y[i][j]
      {
        SweepDeterminedAt(variant, g, s, d, x, y, m0, m1, i, j);
      }
    }
  }

  /** Every cell of g lies in [-bound, bound]. */
  ghost predicate Bounded(g: Grid, m0: nat, m1: nat, bound: real)
    requires IsGrid(g, m0, m1)
  {
    forall i: nat, j: nat :: i < m0 && j < m1 ==> Abs(g[i][j]) <= bound
  }

  /** Discrete maximum principle, cell by cell: when both buffers a sweep
      reads lie within a bound, so does every value it writes. */
  lemma {:induction false} SweepBoundedAt(variant: Variant, g: Grid, s: Grid, d: Grid, d': Grid,
                                          m0: nat, m1: nat, bound: real, i: nat, j: nat)
    requires IsSweep(variant, g, s, d, d', m0, m1)
    requires Bounded(s, m0, m1, bound) && Bounded(d, m0, m1, bound)
    requires i < m0 && j < m1
    ensures Abs(d'[i][j]) <= bound
    decreases i, j
  {
    if 0 < i {
      SweepBoundedAt(variant, g, s, d, d', m0, m1, bound, i - 1, j);
    }
    if 0 < j {
      SweepBoundedAt(variant, g, s, d, d', m0, m1, bound, i, j - 1);
    }
    assert SweptCell(variant, g, s, d, d', m0, m1, i, j);
  }

  /** Discrete maximum principle for one sweep. */
  lemma SweepBounded(variant: Variant, g: Grid, s: Grid, d: Grid, d': Grid, m0: nat, m1: nat, bound: real)
    requires IsSweep(variant, g, s, d, d', m0, m1)
    requires Bounded(s, m0, m1, bound) && Bounded(d, m0, m1, bound)
    ensures Bounded(d', m0, m1, bound)
  {
    forall i: nat, j: nat | i < m0 && j < m1
      ensures Abs(d'[i][j]) <= bound
    {
      SweepBoundedAt(variant, g, s, d, d', m0, m1, bound, i, j);
    }
  }

  /** A field in which every free cell already equals the mean of the
      absolute values of its clamped neighbours. */
  ghost predicate Balanced(g: Grid, m0: nat, m1: nat)
    requires IsGrid(g, m0, m1)
  {
    forall i: nat, j: nat :: i < m0 && j < m1 ==> BalancedAt(g, m0, m1, i, j)
  }

  /** Cell (i, j) is fixed or equals the mean of its clamped neighbours. */
  predicate BalancedAt(g: Grid, m0: nat, m1: nat, i: nat, j: nat)
    requires IsGrid(g, m0, m1) && i < m0 && j < m1
  {
    0.0 <= g[i][j] ==>
      g[i][j] == NeighbourMean(g[ClampUp(i, m0)][j], g[ClampDown(i)][j], g[i][ClampUp(j, m1)], g[i][ClampDown(j)])
  }

  /** A balanced field held in both buffers is a fixed point of every
      variant: the sweep rewrites every cell with its own value and reports a
      change of 0. */
  lemma BalancedIsFixedPoint(variant: Variant, even: bool, b: Buffers, b': Buffers, m0: nat, m1: nat, delta: real)
    requires IsGrid(b.u, m0, m1) && Balanced(b.u, m0, m1) && b.uPrime == b.u
    requires IsStep(variant, even, b, b', m0, m1)
    requires IsDelta(b.u, b'.u, b'.uPrime, m0, m1, delta)
    ensures b' == b && delta == 0.0
  {
    BalancedStep(variant, even, b, b', m0, m1);
  }

  /** The sweep of a balanced field held in both buffers leaves both as they are. */
  lemma BalancedStep(variant: Variant, even: bool, b: Buffers, b': Buffers, m0: nat, m1: nat)
    requires IsGrid(b.u, m0, m1) && Balanced(b.u, m0, m1) && b.uPrime == b.u
    requires IsStep(variant, even, b, b', m0, m1)
    ensures b' == b
  {
    var g := b.u;
    assert IsSweep(variant, g, g, g, g, m0, m1) by {
      forall i: nat, j: nat | i < m0 && j < m1
        ensures SweptCell(variant, g, g, g, g, m0, m1, i, j)
      {
        assert BalancedAt(g, m0, m1, i, j);
      }
    }
    if even {
      SweepDetermined(variant, g, g, g, g, b'.uPrime, m0, m1);
    } else {
      SweepDetermined(variant, g, g, g, g, b'.u, m0, m1);
    }
  }

  // ---------------------------------------------------------------------
  // Runs of sweeps.
  // ---------------------------------------------------------------------

  /** trace[k + 1] is the result of sweep k applied to trace[k]. */
  ghost predicate IsRun(variant: Variant, trace: seq<Buffers>, m0: nat, m1: nat)
  {
    forall k :: 0 <= k < |trace| - 1 ==> IsStep(variant, k % 2 == 0, trace[k], trace[k + 1], m0, m1)
  }

  lemma RunExtend(variant: Variant, trace: seq<Buffers>, next: Buffers, m0: nat, m1: nat)
    requires IsRun(variant, trace, m0, m1) && 0 < |trace|
    requires IsStep(variant, (|trace| - 1) % 2 == 0, trace[|trace| - 1], next, m0, m1)
    ensures IsRun(variant, trace + [next], m0, m1)
  {
    var t := trace + [next];
    forall k | 0 <= k < |t| - 1
      ensures IsStep(variant, k % 2 == 0, t[k], t[k + 1], m0, m1)
    {
      if k < |trace| - 1 {
        assert t[k] == trace[k] && t[k + 1] == trace[k + 1];
      }
    }
  }

  /** A sweep has one delta: the largest change over the free cells. */
  lemma DeltaUnique(g: Grid, u: Grid, uPrime: Grid, m0: nat, m1: nat, d: real, e: real)
    requires IsGrid(g, m0, m1) && IsGrid(u, m0, m1) && IsGrid(uPrime, m0, m1)
    requires IsDelta(g, u, uPrime, m0, m1, d) && IsDelta(g, u, uPrime, m0, m1, e)
    ensures d == e
  {
    if d != 0.0 {
      var i: nat, j: nat :| i < m0 && j < m1 && 0.0 <= g[i][j] && Abs(u[i][j] - uPrime[i][j]) == d;
      assert ChangeWithin(g, u, uPrime, m0, m1, i, j, e);
    }
    if e != 0.0 {
      var i: nat, j: nat :| i < m0 && j < m1 && 0.0 <= g[i][j] && Abs(u[i][j] - uPrime[i][j]) == e;
      assert ChangeWithin(g, u, uPrime, m0, m1, i, j, d);
    }
  }

  /** d is the delta of sweep k of the run, the one that produced trace[k]. */
  ghost predicate StepDelta(trace: seq<Buffers>, m0: nat, m1: nat, k: nat, d: real)
  {
    1 <= k < |trace| &&
    IsGrid(trace[k - 1].u, m0, m1) && IsGrid(trace[k].u, m0, m1) && IsGrid(trace[k].uPrime, m0, m1) &&
    IsDelta(trace[k - 1].u, trace[k].u, trace[k].uPrime, m0, m1, d)
  }

  /** No sweep before the count-th passed the stopping test: after every even
      number of sweeps below count, the delta was above epsilon. */
  ghost predicate NoEarlierStop(trace: seq<Buffers>, m0: nat, m1: nat, epsilon: real, count: nat)
  {
    forall k: nat, d: real :: k < count && k % 2 == 0 && StepDelta(trace, m0, m1, k, d) ==> epsilon < d
  }

  /** The loop went on after count sweeps, so the run extended by one more
      sweep still has no earlier stop. */
  lemma NoEarlierStopExtend(trace: seq<Buffers>, next: Buffers, m0: nat, m1: nat, epsilon: real,
                            count: nat, delta: real)
    requires NoEarlierStop(trace, m0, m1, epsilon, count) && |trace| == count + 1
    requires 1 <= count ==> StepDelta(trace, m0, m1, count, delta) && (epsilon < delta || count % 2 == 1)
    ensures NoEarlierStop(trace + [next], m0, m1, epsilon, count + 1)
  {
    var t := trace + [next];
    forall k: nat, d: real | k < count + 1 && k % 2 == 0 && StepDelta(t, m0, m1, k, d)
      ensures epsilon < d
    {
      assert t[k - 1] == trace[k - 1] && t[k] == trace[k];
      assert StepDelta(trace, m0, m1, k, d);
      if k == count {
        DeltaUnique(trace[k - 1].u, trace[k].u, trace[k].uPrime, m0, m1, d, delta);
      }
    }
  }

  lemma RunPrefix(variant: Variant, trace: seq<Buffers>, n: nat, m0: nat, m1: nat)
    requires IsRun(variant, trace, m0, m1) && n <= |trace|
    ensures IsRun(variant, trace[..n], m0, m1)
  {
    var t := trace[..n];
    forall k | 0 <= k < |t| - 1
      ensures IsStep(variant, k % 2 == 0, t[k], t[k + 1], m0, m1)
    {
      assert t[k] == trace[k] && t[k + 1] == trace[k + 1];
    }
  }

  /** Between sweeps, relative to the field u0 the solver was given: a cell
      fixed in u0 holds its u0 value in both buffers, and a free cell is
      non-negative in both, so it is never taken for a fixed one. */
  ghost predicate KeepsFixed(u0: Grid, b: Buffers, m0: nat, m1: nat)
  {
    IsGrid(u0, m0, m1) && IsGrid(b.u, m0, m1) && IsGrid(b.uPrime, m0, m1) &&
    forall i: nat, j: nat :: i < m0 && j < m1 ==>
      if u0[i][j] < 0.0 then b.u[i][j] == u0[i][j] && b.uPrime[i][j] == u0[i][j]
      else 0.0 <= b.u[i][j] && 0.0 <= b.uPrime[i][j]
  }

  /** A sweep writes no fixed cell in either buffer and writes only
      non-negative values. */
  lemma StepKeepsFixed(variant: Variant, even: bool, u0: Grid, b: Buffers, b': Buffers, m0: nat, m1: nat)
    requires KeepsFixed(u0, b, m0, m1) && IsStep(variant, even, b, b', m0, m1)
    ensures KeepsFixed(u0, b', m0, m1)
  {
    forall i: nat, j: nat | i < m0 && j < m1
      ensures if u0[i][j] < 0.0 then b'.u[i][j] == u0[i][j] && b'.uPrime[i][j] == u0[i][j]
              else 0.0 <= b'.u[i][j] && 0.0 <= b'.uPrime[i][j]
    {
      if even {
        assert SweptCell(variant, b.u, b.u, b.uPrime, b'.uPrime, m0, m1, i, j);
      } else {
        assert SweptCell(variant, b.u, b.uPrime, b.u, b'.u, m0, m1, i, j);
      }
    }
  }

  /** Over a whole run that starts from u0 in both buffers, fixed cells keep
      their values and free cells stay non-negative. */
  lemma {:induction false} RunKeepsFixed(variant: Variant, trace: seq<Buffers>, u0: Grid, m0: nat, m1: nat)
    requires IsRun(variant, trace, m0, m1) && 0 < |trace|
    requires IsGrid(u0, m0, m1) && trace[0] == Buffers(u0, u0)
    ensures forall k :: 0 <= k < |trace| ==> KeepsFixed(u0, trace[k], m0, m1)
  {
    if |trace| == 1 {
    } else {
      var t := trace[..|trace| - 1];
      RunPrefix(variant, trace, |trace| - 1, m0, m1);
      RunKeepsFixed(variant, t, u0, m0, m1);
      var n := |trace| - 1;
      assert KeepsFixed(u0, trace[n - 1], m0, m1) by { assert trace[n - 1] == t[n - 1]; }
      StepKeepsFixed(variant, (n - 1) % 2 == 0, u0, trace[n - 1], trace[n], m0, m1);
      forall k | 0 <= k < |trace|
        ensures KeepsFixed(u0, trace[k], m0, m1)
      {
        if k < n {
          assert trace[k] == t[k];
        }
      }
    }
  }

  /** A run that starts from a balanced field in both buffers never leaves
      it: every sweep of every variant returns the same pair of buffers. */
  lemma {:induction false} BalancedRunConstant(variant: Variant, trace: seq<Buffers>, m0: nat, m1: nat)
    requires IsRun(variant, trace, m0, m1) && 0 < |trace|
    requires IsGrid(trace[0].u, m0, m1) && trace[0].uPrime == trace[0].u && Balanced(trace[0].u, m0, m1)
    ensures forall k :: 0 <= k < |trace| ==> trace[k] == trace[0]
  {
    if 1 < |trace| {
      var n := |trace| - 1;
      var t := trace[..n];
      RunPrefix(variant, trace, n, m0, m1);
      BalancedRunConstant(variant, t, m0, m1);
      assert trace[n - 1] == t[n - 1] == trace[0];
      BalancedStep(variant, (n - 1) % 2 == 0, trace[n - 1], trace[n], m0, m1);
      forall k | 0 <= k < |trace|
        ensures trace[k] == trace[0]
      {
        if k < n {
          assert trace[k] == t[k];
        }
      }
    }
  }

  /** Discrete maximum principle over a run: when the initial field lies in
      [-bound, bound], so does every value of both buffers after any number
      of sweeps. */
  lemma {:induction false} RunBounded(variant: Variant, trace: seq<Buffers>, m0: nat, m1: nat, bound: real)
    requires IsRun(variant, trace, m0, m1) && 0 < |trace|
    requires IsGrid(trace[0].u, m0, m1) && trace[0].uPrime == trace[0].u && Bounded(trace[0].u, m0, m1, bound)
    ensures forall k :: 0 <= k < |trace| ==>
              IsGrid(trace[k].u, m0, m1) && IsGrid(trace[k].uPrime, m0, m1) &&
              Bounded(trace[k].u, m0, m1, bound) && Bounded(trace[k].uPrime, m0, m1, bound)
  {
    if 1 < |trace| {
      var n := |trace| - 1;
      var t := trace[..n];
      RunPrefix(variant, trace, n, m0, m1);
      RunBounded(variant, t, m0, m1, bound);
      var b, b' := trace[n - 1], trace[n];
      assert b == t[n - 1];
      assert IsStep(variant, (n - 1) % 2 == 0, b, b', m0, m1);
      if (n - 1) % 2 == 0 {
        SweepBounded(variant, b.u, b.u, b.uPrime, b'.uPrime, m0, m1, bound);
      } else {
        SweepBounded(variant, b.u, b.uPrime, b.u, b'.u, m0, m1, bound);
      }
      forall k | 0 <= k < |trace|
        ensures IsGrid(trace[k].u, m0, m1) && IsGrid(trace[k].uPrime, m0, m1) &&
                Bounded(trace[k].u, m0, m1, bound) && Bounded(trace[k].uPrime, m0, m1, bound)
      {
        if k < n {
          assert trace[k] == t[k];
        }
      }
    }
  }

  // ---------------------------------------------------------------------
  // Progress of a sweep, in the order of the nested loops.
  // ---------------------------------------------------------------------

  /** The buffer being written, cur, once the sweep has reached (i, j): cells
      before (i, j) obey the sweep's rule, the others still hold d. */
  ghost predicate SweptTo(variant: Variant, g: Grid, s: Grid, d: Grid, cur: Grid, m0: nat, m1: nat, i: nat, j: nat)
  {
    IsGrid(g, m0, m1) && IsGrid(s, m0, m1) && IsGrid(d, m0, m1) && IsGrid(cur, m0, m1) &&
    forall a: nat, b: nat :: a < m0 && b < m1 ==> Progressed(variant, g, s, d, cur, m0, m1, i, j, a, b)
  }

  predicate Progressed(variant: Variant, g: Grid, s: Grid, d: Grid, cur: Grid, m0: nat, m1: nat,
                       i: nat, j: nat, a: nat, b: nat)
    requires IsGrid(g, m0, m1) && IsGrid(s, m0, m1) && IsGrid(d, m0, m1) && IsGrid(cur, m0, m1)
    requires a < m0 && b < m1
  {
    if Before(a, b, i, j) then SweptCell(variant, g, s, d, cur, m0, m1, a, b) else cur[a][b] == d[a][b]
  }

  /** The running maximum once the sweep has reached (i, j), over the free
      cells before (i, j) of the current buffers x (`u`) and y (`uPrime`);
      (w0, w1) is a cell that attains it. */
  ghost predicate DeltaTo(g: Grid, x: Grid, y: Grid, m0: nat, m1: nat, i: nat, j: nat,
                          delta: real, w0: nat, w1: nat)
  {
    IsGrid(g, m0, m1) && IsGrid(x, m0, m1) && IsGrid(y, m0, m1) && 0.0 <= delta &&
    (forall a: nat, b: nat :: a < m0 && b < m1 && Before(a, b, i, j) ==> ChangeWithin(g, x, y, m0, m1, a, b, delta)) &&
    (delta == 0.0 ||
     (w0 < m0 && w1 < m1 && Before(w0, w1, i, j) && 0.0 <= g[w0][w1] && Abs(x[w0][w1] - y[w0][w1]) == delta))
  }

  /** Two grids of the same shape that agree at every cell are equal. */
  lemma GridsEqual(x: Grid, y: Grid, m0: nat, m1: nat)
    requires IsGrid(x, m0, m1) && IsGrid(y, m0, m1)
    requires forall a: nat, b: nat :: a < m0 && b < m1 ==> x[a][b] == y[a][b]
    ensures x == y
  {
    forall a | 0 <= a < m0
      ensures x[a] == y[a]
    {
      assert forall b :: 0 <= b < m1 ==> x[a][b] == y[a][b];
    }
  }

  /** Writing v at (i, j) changes that cell only. */
  lemma WriteCell(cur: Grid, m0: nat, m1: nat, i: nat, j: nat, v: real)
    requires IsGrid(cur, m0, m1) && i < m0 && j < m1
    ensures var next := cur[i := cur[i][j := v]];
            IsGrid(next, m0, m1) && next[i][j] == v &&
            forall a: nat, b: nat :: a < m0 && b < m1 && (a != i || b != j) ==> next[a][b] == cur[a][b]
  {
  }

  /** A sweep that has reached (i, j) sees each cell of the buffer being
      written as AsSeen describes it. */
  lemma SeenNow(variant: Variant, g: Grid, s: Grid, d: Grid, cur: Grid, m0: nat, m1: nat, i: nat, j: nat, a: nat, b: nat)
    requires SweptTo(variant, g, s, d, cur, m0, m1, i, j) && a < m0 && b < m1
    ensures cur[a][b] == AsSeen(d, cur, m0, m1, a, b, i, j)
  {
    assert Progressed(variant, g, s, d, cur, m0, m1, i, j, a, b);
  }

  /** A fixed cell is skipped: the position moves one cell on. */
  lemma SkipFixed(variant: Variant, g: Grid, s: Grid, d: Grid, cur: Grid, x: Grid, y: Grid, m0: nat, m1: nat,
                  i: nat, j: nat, delta: real, w0: nat, w1: nat)
    requires SweptTo(variant, g, s, d, cur, m0, m1, i, j) && DeltaTo(g, x, y, m0, m1, i, j, delta, w0, w1)
    requires i < m0 && j < m1 && g[i][j] < 0.0
    ensures SweptTo(variant, g, s, d, cur, m0, m1, i, j + 1) && DeltaTo(g, x, y, m0, m1, i, j + 1, delta, w0, w1)
  {
    var j' := j + 1;
    forall a: nat, b: nat | a < m0 && b < m1
      ensures Progressed(variant, g, s, d, cur, m0, m1, i, j', a, b)
    {
      assert Progressed(variant, g, s, d, cur, m0, m1, i, j, a, b);
    }
  }

  /** Writing the cell's value at free cell (i, j) moves the position one
      cell on. */
  lemma WriteAdvances(variant: Variant, g: Grid, s: Grid, d: Grid, cur: Grid, m0: nat, m1: nat,
                      i: nat, j: nat, v: real)
    requires SweptTo(variant, g, s, d, cur, m0, m1, i, j)
    requires i < m0 && j < m1 && 0.0 <= g[i][j]
    requires v == CellValue(variant, s, d, cur, m0, m1, i, j)
    ensures SweptTo(variant, g, s, d, cur[i := cur[i][j := v]], m0, m1, i, j + 1)
  {
    var next := cur[i := cur[i][j := v]];
    WriteCell(cur, m0, m1, i, j, v);
    var j' := j + 1;
    forall a: nat, b: nat | a < m0 && b < m1
      ensures Progressed(variant, g, s, d, next, m0, m1, i, j', a, b)
    {
      assert Progressed(variant, g, s, d, cur, m0, m1, i, j, a, b);
      if Before(a, b, i, j + 1) {
        CellValueReadsBefore(variant, s, d, cur, next, m0, m1, a, b);
      }
    }
  }

  /** Folding the change at free cell (i, j) into the running maximum moves
      the position one cell on; x' and y' differ from x and y at most at
      (i, j). */
  lemma DeltaAdvances(g: Grid, x: Grid, y: Grid, x': Grid, y': Grid, m0: nat, m1: nat, i: nat, j: nat,
                      delta: real, w0: nat, w1: nat, delta': real, w0': nat, w1': nat)
    requires DeltaTo(g, x, y, m0, m1, i, j, delta, w0, w1)
    requires IsGrid(x', m0, m1) && IsGrid(y', m0, m1) && i < m0 && j < m1 && 0.0 <= g[i][j]
    requires forall a: nat, b: nat :: a < m0 && b < m1 && (a != i || b != j) ==> x'[a][b] == x[a][b] && y'[a][b] == y[a][b]
    requires var diff := Abs(x'[i][j] - y'[i][j]);
             delta' == Max(delta, diff) &&
             if delta < diff then w0' == i && w1' == j else w0' == w0 && w1' == w1
    ensures DeltaTo(g, x', y', m0, m1, i, j + 1, delta', w0', w1')
  {
    var j' := j + 1;
    forall a: nat, b: nat | a < m0 && b < m1 && Before(a, b, i, j')
      ensures ChangeWithin(g, x', y', m0, m1, a, b, delta')
    {
      if a != i || b != j {
        assert ChangeWithin(g, x, y, m0, m1, a, b, delta);
      }
    }
  }

  /** Visiting free cell (i, j) as the solver does: the buffer being written,
      cur, gets v at (i, j); x and y are `u` and `uPrime`, one of which is
      cur and the other the buffer read, s. */
  lemma VisitAdvances(variant: Variant, even: bool, g: Grid, s: Grid, d: Grid, cur: Grid, m0: nat, m1: nat,
                      i: nat, j: nat, v: real, delta: real, w0: nat, w1: nat, delta': real, w0': nat, w1': nat)
    requires SweptTo(variant, g, s, d, cur, m0, m1, i, j)
    requires var x, y := if even then s else cur, if even then cur else s;
             DeltaTo(g, x, y, m0, m1, i, j, delta, w0, w1)
    requires i < m0 && j < m1 && 0.0 <= g[i][j]
    requires v == CellValue(variant, s, d, cur, m0, m1, i, j)
    requires var cur' := cur[i := cur[i][j := v]];
             var diff := if even then Abs(s[i][j] - v) else Abs(v - s[i][j]);
             delta' == Max(delta, diff) &&
             if delta < diff then w0' == i && w1' == j else w0' == w0 && w1' == w1
    ensures var cur' := cur[i := cur[i][j := v]];
            var x', y' := if even then s else cur', if even then cur' else s;
            SweptTo(variant, g, s, d, cur', m0, m1, i, j + 1) &&
            DeltaTo(g, x', y', m0, m1, i, j + 1, delta', w0', w1')
  {
    var cur' := cur[i := cur[i][j := v]];
    WriteAdvances(variant, g, s, d, cur, m0, m1, i, j, v);
    WriteCell(cur, m0, m1, i, j, v);
    if even {
      DeltaAdvances(g, s, cur, s, cur', m0, m1, i, j, delta, w0, w1, delta', w0', w1');
    } else {
      DeltaAdvances(g, cur, s, cur', s, m0, m1, i, j, delta, w0, w1, delta', w0', w1');
    }
  }

  /** Past the last row, a sweep from the buffer the parity selects into the
      other one has made the solver's step on the pair (u, uPrime) and has
      measured its change. */
  lemma SweepDone(variant: Variant, even: bool, g: Grid, s: Grid, d: Grid, cur: Grid, m0: nat, m1: nat,
                  delta: real, w0: nat, w1: nat)
    requires g == if even then s else d
    requires SweptTo(variant, g, s, d, cur, m0, m1, m0, 0)
    requires var x, y := if even then s else cur, if even then cur else s;
             DeltaTo(g, x, y, m0, m1, m0, 0, delta, w0, w1)
    ensures var before := if even then Buffers(s, d) else Buffers(d, s);
            var after := if even then Buffers(s, cur) else Buffers(cur, s);
            IsStep(variant, even, before, after, m0, m1) && IsDelta(g, after.u, after.uPrime, m0, m1, delta)
  {
    var x, y := if even then s else cur, if even then cur else s;
    Finish(variant, g, s, d, cur, x, y, m0, m1, delta, w0, w1);
  }

  /** At the end of a row the position moves to the start of the next. */
  lemma RowEnd(variant: Variant, g: Grid, s: Grid, d: Grid, cur: Grid, x: Grid, y: Grid, m0: nat, m1: nat,
               i: nat, delta: real, w0: nat, w1: nat)
    requires SweptTo(variant, g, s, d, cur, m0, m1, i, m1) && DeltaTo(g, x, y, m0, m1, i, m1, delta, w0, w1)
    ensures SweptTo(variant, g, s, d, cur, m0, m1, i + 1, 0) && DeltaTo(g, x, y, m0, m1, i + 1, 0, delta, w0, w1)
  {
    var i' := i + 1;
    forall a: nat, b: nat | a < m0 && b < m1
      ensures Progressed(variant, g, s, d, cur, m0, m1, i', 0, a, b)
    {
      assert Progressed(variant, g, s, d, cur, m0, m1, i, m1, a, b);
    }
  }

  /** Past the last row the sweep is complete. */
  lemma Finish(variant: Variant, g: Grid, s: Grid, d: Grid, cur: Grid, x: Grid, y: Grid, m0: nat, m1: nat,
               delta: real, w0: nat, w1: nat)
    requires SweptTo(variant, g, s, d, cur, m0, m1, m0, 0) && DeltaTo(g, x, y, m0, m1, m0, 0, delta, w0, w1)
    ensures IsSweep(variant, g, s, d, cur, m0, m1) && IsDelta(g, x, y, m0, m1, delta)
  {
    forall a: nat, b: nat | a < m0 && b < m1
      ensures SweptCell(variant, g, s, d, cur, m0, m1, a, b) && ChangeWithin(g, x, y, m0, m1, a, b, delta)
    {
      assert Progressed(variant, g, s, d, cur, m0, m1, m0, 0, a, b);
    }
  }

  // ---------------------------------------------------------------------
  // The solver.
  // ---------------------------------------------------------------------

  /** The contents of a 2D array. */
  ghost function Snap(a: array2<real>): (g: Grid)
    reads a
    ensures IsGrid(g, a.Length0, a.Length1)
    ensures forall i, j :: 0 <= i < a.Length0 && 0 <= j < a.Length1 ==> g[i][j] == a[i, j]
  {
    seq(a.Length0, i requires 0 <= i < a.Length0 reads a =>
      seq(a.Length1, j requires 0 <= j < a.Length1 reads a => a[i, j]))
  }

  /** The scratch buffer: a fresh array holding a cell-for-cell copy of u. */
  method CopyBuffer(u: array2<real>) returns (uPrime: array2<real>)
    ensures fresh(uPrime) && uPrime.Length0 == u.Length0 && uPrime.Length1 == u.Length1
    ensures Snap(uPrime) == Snap(u)
  {
    uPrime := new real[u.Length0, u.Length1];
    for i := 0 to u.Length0
      invariant forall a, b :: 0 <= a < i && 0 <= b < u.Length1 ==> uPrime[a, b] == u[a, b]
    {
      for j := 0 to u.Length1
        invariant forall a, b :: 0 <= a < i && 0 <= b < u.Length1 ==> uPrime[a, b] == u[a, b]
        invariant forall b :: 0 <= b < j ==> uPrime[i, b] == u[i, b]
      {
        uPrime[i, j] := u[i, j];
      }
    }
    GridsEqual(Snap(uPrime), Snap(u), u.Length0, u.Length1);
  }

  /** The update of free cell (i, j): with an even iteration count write
      uPrime from u, with an odd one write u from uPrime, by the selected
      variant's formula. s is the buffer read, cur the buffer written, and d
      what the latter held when the sweep began. */
  method UpdateCell(variant: Variant, u: array2<real>, uPrime: array2<real>, even: bool, i: nat, j: nat,
                    ghost s: Grid, ghost d: Grid, ghost cur: Grid)
    requires u != uPrime && u.Length0 == uPrime.Length0 && u.Length1 == uPrime.Length1
    requires i < u.Length0 && j < u.Length1
    requires Snap(if even then u else uPrime) == s && Snap(if even then uPrime else u) == cur
    requires IsGrid(d, u.Length0, u.Length1)
    requires cur[ClampDown(i)][j] == AsSeen(d, cur, u.Length0, u.Length1, ClampDown(i), j, i, j)
    requires cur[i][ClampDown(j)] == AsSeen(d, cur, u.Length0, u.Length1, i, ClampDown(j), i, j)
    modifies if even then uPrime else u
    ensures (if even then uPrime else u)[i, j] == CellValue(variant, s, d, cur, u.Length0, u.Length1, i, j)
    ensures even ==> forall a, b :: 0 <= a < u.Length0 && 0 <= b < u.Length1 && (a != i || b != j) ==>
                       uPrime[a, b] == old(uPrime[a, b])
    ensures !even ==> forall a, b :: 0 <= a < u.Length0 && 0 <= b < u.Length1 && (a != i || b != j) ==>
                        u[a, b] == old(u[a, b])
  {
    var m0, m1 := u.Length0, u.Length1;
    var ip, im, jp, jm := ClampUp(i, m0), ClampDown(i), ClampUp(j, m1), ClampDown(j);
    if even {
      if variant == Jacobi {
        uPrime[i, j] := NeighbourMean(u[ip, j], u[im, j], u[i, jp], u[i, jm]);
      } else if variant == GaussSeidel {
        uPrime[i, j] := NeighbourMean(u[ip, j], uPrime[im, j], u[i, jp], uPrime[i, jm]);
      } else {
        uPrime[i, j] := NeighbourMean(u[ip, j], u[im, j], u[i, jp], u[i, jm]);
      }
    } else {
      if variant == Jacobi {
        u[i, j] := NeighbourMean(uPrime[ip, j], uPrime[im, j], uPrime[i, jp], uPrime[i, jm]);
      } else if variant == GaussSeidel {
        u[i, j] := NeighbourMean(uPrime[ip, j], u[im, j], uPrime[i, jp], u[i, jm]);
      } else {
        u[i, j] := NeighbourMean(uPrime[ip, j], uPrime[im, j], uPrime[i, jp], uPrime[i, jm]);
      }
    }
  }

  /** The body of the inner loop at (i, j): skip a fixed cell, otherwise
      write its new value into the buffer the parity selects and fold
      |u - uPrime| at the cell into the running maximum. g, s and d are u,
      the buffer read and the buffer written as the sweep found them. */
  method VisitCell(variant: Variant, u: array2<real>, uPrime: array2<real>, even: bool, i: nat, j: nat,
                   delta: real, ghost g: Grid, ghost s: Grid, ghost d: Grid, ghost w0: nat, ghost w1: nat)
    returns (delta': real, ghost w0': nat, ghost w1': nat)
    requires u != uPrime && u.Length0 == uPrime.Length0 && u.Length1 == uPrime.Length1
    requires i < u.Length0 && j < u.Length1
    requires g == if even then s else d
    requires Snap(if even then u else uPrime) == s
    requires SweptTo(variant, g, s, d, Snap(if even then uPrime else u), u.Length0, u.Length1, i, j)
    requires DeltaTo(g, Snap(u), Snap(uPrime), u.Length0, u.Length1, i, j, delta, w0, w1)
    modifies if even then uPrime else u
    ensures SweptTo(variant, g, s, d, Snap(if even then uPrime else u), u.Length0, u.Length1, i, j + 1)
    ensures DeltaTo(g, Snap(u), Snap(uPrime), u.Length0, u.Length1, i, j + 1, delta', w0', w1')
  {
    var m0, m1 := u.Length0, u.Length1;
    ghost var dst := if even then uPrime else u;
    ghost var cur := Snap(dst);
    SeenNow(variant, g, s, d, cur, m0, m1, i, j, i, j);
    if u[i, j] < 0.0 {
      // signbit: the cell is fixed
      SkipFixed(variant, g, s, d, cur, Snap(u), Snap(uPrime), m0, m1, i, j, delta, w0, w1);
      return delta, w0, w1;
    }
    SeenNow(variant, g, s, d, cur, m0, m1, i, j, ClampDown(i), j);
    SeenNow(variant, g, s, d, cur, m0, m1, i, j, i, ClampDown(j));
    assert Snap(u) == (if even then s else cur) && Snap(uPrime) == (if even then cur else s);
    UpdateCell(variant, u, uPrime, even, i, j, s, d, cur);
    ghost var v := CellValue(variant, s, d, cur, m0, m1, i, j);
    ghost var next := cur[i := cur[i][j := v]];
    WriteCell(cur, m0, m1, i, j, v);
    ghost var after := Snap(dst);
    forall a: nat, b: nat | a < m0 && b < m1
      ensures after[a][b] == next[a][b]
    {
      if a != i || b != j {
        assert after[a][b] == dst[a, b] == old(dst[a, b]) == cur[a][b];
      }
    }
    GridsEqual(after, next, m0, m1);
    assert Snap(u) == (if even then s else next) && Snap(uPrime) == (if even then next else s);
    assert u[i, j] - uPrime[i, j] == if even then s[i][j] - v else v - s[i][j];

    var diff := Abs(u[i, j] - uPrime[i, j]);
    delta' := Max(delta, diff);
    w0', w1' := if delta < diff then i else w0, if delta < diff then j else w1;
    VisitAdvances(variant, even, g, s, d, cur, m0, m1, i, j, v, delta, w0, w1, delta', w0', w1');
  }

  /** The inner loop: row i, column by column. */
  method SweepRow(variant: Variant, u: array2<real>, uPrime: array2<real>, even: bool, i: nat,
                  delta: real, ghost g: Grid, ghost s: Grid, ghost d: Grid, ghost w0: nat, ghost w1: nat)
    returns (delta': real, ghost w0': nat, ghost w1': nat)
    requires u != uPrime && u.Length0 == uPrime.Length0 && u.Length1 == uPrime.Length1
    requires i < u.Length0
    requires g == if even then s else d
    requires Snap(if even then u else uPrime) == s
    requires SweptTo(variant, g, s, d, Snap(if even then uPrime else u), u.Length0, u.Length1, i, 0)
    requires DeltaTo(g, Snap(u), Snap(uPrime), u.Length0, u.Length1, i, 0, delta, w0, w1)
    modifies if even then uPrime else u
    ensures Snap(if even then u else uPrime) == s
    ensures SweptTo(variant, g, s, d, Snap(if even then uPrime else u), u.Length0, u.Length1, i + 1, 0)
    ensures DeltaTo(g, Snap(u), Snap(uPrime), u.Length0, u.Length1, i + 1, 0, delta', w0', w1')
  {
    var m0, m1 := u.Length0, u.Length1;
    delta', w0', w1' := delta, w0, w1;
    for j := 0 to m1
      invariant Snap(if even then u else uPrime) == s
      invariant SweptTo(variant, g, s, d, Snap(if even then uPrime else u), m0, m1, i, j)
      invariant DeltaTo(g, Snap(u), Snap(uPrime), m0, m1, i, j, delta', w0', w1')
    {
      delta', w0', w1' := VisitCell(variant, u, uPrime, even, i, j, delta', g, s, d, w0', w1');
    }
    RowEnd(variant, g, s, d, Snap(if even then uPrime else u), Snap(u), Snap(uPrime), m0, m1, i, delta', w0', w1');
  }

  /** One sweep over the whole grid, in row-major order. With an even
      iteration count it reads u and writes uPrime, with an odd one the
      reverse; it returns the largest |u - uPrime| over the free cells. */
  method Sweep(variant: Variant, u: array2<real>, uPrime: array2<real>, even: bool) returns (delta: real)
    requires u != uPrime && u.Length0 == uPrime.Length0 && u.Length1 == uPrime.Length1
    modifies if even then uPrime else u
    ensures IsStep(variant, even, Buffers(old(Snap(u)), old(Snap(uPrime))), Buffers(Snap(u), Snap(uPrime)),
                   u.Length0, u.Length1)
    ensures IsDelta(old(Snap(u)), Snap(u), Snap(uPrime), u.Length0, u.Length1, delta)
  {
    var m0, m1 := u.Length0, u.Length1;
    ghost var g, s, d := Snap(u), Snap(if even then u else uPrime), Snap(if even then uPrime else u);
    ghost var w0: nat, w1: nat := 0, 0;
    delta := 0.0;
    for i := 0 to m0
      invariant Snap(if even then u else uPrime) == s
      invariant SweptTo(variant, g, s, d, Snap(if even then uPrime else u), m0, m1, i, 0)
      invariant DeltaTo(g, Snap(u), Snap(uPrime), m0, m1, i, 0, delta, w0, w1)
    {
      delta, w0, w1 := SweepRow(variant, u, uPrime, even, i, delta, g, s, d, w0, w1);
    }
    ghost var cur := Snap(if even then uPrime else u);
    assert Snap(u) == (if even then s else cur) && Snap(uPrime) == (if even then cur else s);
    SweepDone(variant, even, g, s, d, cur, m0, m1, delta, w0, w1);
    assert Buffers(old(Snap(u)), old(Snap(uPrime))) == if even then Buffers(s, d) else Buffers(d, s);
  }

  /** The outer loop: sweep, alternating the parity, until the last sweep's
      change is at most epsilon and the number of sweeps is even. At most
      `fuel` sweeps are run. */
  method Iterate(variant: Variant, u: array2<real>, uPrime: array2<real>, epsilon: real, fuel: nat)
    returns (status: Status, ghost trace: seq<Buffers>, ghost lastDelta: real)
    requires u != uPrime && u.Length0 == uPrime.Length0 && u.Length1 == uPrime.Length1
    modifies u, uPrime
    ensures status == Success || status == FuelExhausted
    ensures 0 < |trace| && trace[0] == Buffers(old(Snap(u)), old(Snap(uPrime)))
    ensures trace[|trace| - 1] == Buffers(Snap(u), Snap(uPrime))
    ensures IsRun(variant, trace, u.Length0, u.Length1)
    ensures status == FuelExhausted ==> |trace| == fuel + 1
    ensures status == Success ==>
              var n := |trace| - 1;
              2 <= n && n % 2 == 0 && lastDelta <= epsilon &&
              IsGrid(trace[n - 1].u, u.Length0, u.Length1) &&
              IsDelta(trace[n - 1].u, trace[n].u, trace[n].uPrime, u.Length0, u.Length1, lastDelta)
    ensures NoEarlierStop(trace, u.Length0, u.Length1, epsilon, |trace| - 1)
    ensures old(Snap(uPrime)) == old(Snap(u)) && Balanced(old(Snap(u)), u.Length0, u.Length1) &&
            0.0 <= epsilon && 2 <= fuel ==>
              status == Success && |trace| == 3 && Snap(u) == old(Snap(u)) && lastDelta == 0.0
  {
    var m0, m1 := u.Length0, u.Length1;
    var iterations: nat := 0;
    var delta := epsilon + 1.0;
    trace := [Buffers(Snap(u), Snap(uPrime))];
    ghost var settled := trace[0].uPrime == trace[0].u && Balanced(trace[0].u, m0, m1) && 0.0 <= epsilon;
    while delta > epsilon || (delta <= epsilon && iterations % 2 == 1)
      invariant iterations <= fuel
      invariant |trace| == iterations + 1 && trace[0] == Buffers(old(Snap(u)), old(Snap(uPrime)))
      invariant trace[iterations] == Buffers(Snap(u), Snap(uPrime))
      invariant IsRun(variant, trace, m0, m1)
      invariant iterations == 0 ==> delta > epsilon
      invariant 0 < iterations ==>
                  IsGrid(trace[iterations - 1].u, m0, m1) &&
                  IsDelta(trace[iterations - 1].u, trace[iterations].u, trace[iterations].uPrime, m0, m1, delta)
      invariant settled ==> iterations <= 2 && (0 < iterations ==> delta == 0.0)
      invariant NoEarlierStop(trace, m0, m1, epsilon, iterations)
      decreases fuel - iterations
    {
      if iterations == fuel {
        return FuelExhausted, trace, delta;
      }
      ghost var before, delta0 := Buffers(Snap(u), Snap(uPrime)), delta;
      delta := Sweep(variant, u, uPrime, iterations % 2 == 0);
      if settled {
        BalancedRunConstant(variant, trace, m0, m1);
        BalancedIsFixedPoint(variant, iterations % 2 == 0, before, Buffers(Snap(u), Snap(uPrime)), m0, m1, delta);
      }
      RunExtend(variant, trace, Buffers(Snap(u), Snap(uPrime)), m0, m1);
      NoEarlierStopExtend(trace, Buffers(Snap(u), Snap(uPrime)), m0, m1, epsilon, iterations, delta0);
      trace := trace + [Buffers(Snap(u), Snap(uPrime))];
      iterations := iterations + 1;
    }
    if settled {
      BalancedRunConstant(variant, trace, m0, m1);
    }
    return Success, trace, delta;
  }

  /** cpu_harmonic_2d: reject a missing size array, a missing field or a
      non-positive epsilon; otherwise copy u into a scratch buffer and run
      the outer loop. u is read and written through the dimensions m[0] and
      m[1]. */
  method CpuHarmonic2d(variant: Variant, m: array?<nat>, u: array2?<real>, epsilon: real, fuel: nat)
    returns (status: Status, ghost trace: seq<Buffers>, ghost lastDelta: real)
    requires m != null && u != null && 0.0 < epsilon ==> 2 <= m.Length && u.Length0 == m[0] && u.Length1 == m[1]
    modifies u
    ensures status == InvalidData <==> m == null || u == null || epsilon <= 0.0
    ensures status == InvalidData && u != null ==> unchanged(u)
    ensures status != InvalidData ==>
              m != null && u != null && 0 < |trace| &&
              trace[0] == Buffers(old(Snap(u)), old(Snap(u))) && trace[|trace| - 1].u == Snap(u) &&
              IsRun(variant, trace, m[0], m[1])
    ensures status != InvalidData ==>
              forall i, j :: 0 <= i < u.Length0 && 0 <= j < u.Length1 ==>
                if old(u[i, j]) < 0.0 then u[i, j] == old(u[i, j]) else 0.0 <= u[i, j]
    ensures status != InvalidData ==>
              forall bound: real :: Bounded(old(Snap(u)), u.Length0, u.Length1, bound) ==>
                Bounded(Snap(u), u.Length0, u.Length1, bound)
    ensures status == FuelExhausted ==> |trace| == fuel + 1
    ensures status == Success ==>
              var n := |trace| - 1;
              2 <= n && n % 2 == 0 && lastDelta <= epsilon &&
              IsGrid(trace[n - 1].u, u.Length0, u.Length1) &&
              IsDelta(trace[n - 1].u, trace[n].u, trace[n].uPrime, u.Length0, u.Length1, lastDelta)
    ensures status != InvalidData ==> NoEarlierStop(trace, m[0], m[1], epsilon, |trace| - 1)
    ensures status != InvalidData && u != null && Balanced(old(Snap(u)), u.Length0, u.Length1) && 2 <= fuel ==>
              status == Success && |trace| == 3 && Snap(u) == old(Snap(u)) && lastDelta == 0.0
  {
    if m == null || u == null || epsilon <= 0.0 {
      return InvalidData, [], 0.0;
    }
    var uPrime := CopyBuffer(u);
    ghost var u0 := Snap(u);
    status, trace, lastDelta := Iterate(variant, u, uPrime, epsilon, fuel);
    var m0, m1 := u.Length0, u.Length1;
    RunKeepsFixed(variant, trace, u0, m0, m1);
    ghost var last := trace[|trace| - 1];
    assert KeepsFixed(u0, last, m0, m1);
    forall i, j | 0 <= i < m0 && 0 <= j < m1
      ensures if old(u[i, j]) < 0.0 then u[i, j] == old(u[i, j]) else 0.0 <= u[i, j]
    {
      assert u0[i][j] == old(u[i, j]) && last.u[i][j] == u[i, j];
    }
    forall bound: real | Bounded(u0, m0, m1, bound)
      ensures Bounded(Snap(u), m0, m1, bound)
    {
      RunBounded(variant, trace, m0, m1, bound);
    }
  }
}
