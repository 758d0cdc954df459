/** The in-place red-black successive-over-relaxation solver over a flat,
    row-major grid (src/harmonic/harmonic_sor_cpu.cpp). */
module RedBlackSor {
  import opened Common

  // ---------------------------------------------------------------------
  // Flat layout: cell (x0, x1) of an m0-by-m1 grid lives at x0 * m1 + x1.
  // ---------------------------------------------------------------------

  predicate InGrid(x0: int, x1: int, m0: nat, m1: nat)
  {
    0 <= x0 < m0 && 0 <= x1 < m1
  }

  lemma MulStep(a: nat, b: nat, c: nat)
    requires a < b
    ensures a * c + c <= b * c
  {
    var d: nat := b - a - 1;
    assert b * c == a * c + c + d * c;
  }

  /** Position of cell (x0, x1) in the flat buffer; always inside the buffer. */
  function Idx(x0: nat, x1: nat, m0: nat, m1: nat): (p: nat)
    requires InGrid(x0, x1, m0, m1)
    ensures p < m0 * m1
  {
    MulStep(x0, m0, m1);
    x0 * m1 + x1
  }

  lemma MulMono(a: nat, b: nat, c: nat)
    requires a <= b
    ensures a * c <= b * c
  {
    if a < b {
      MulStep(a, b, c);
    }
  }

  /** Every position of the buffer is the position of exactly the cell
      (p / m1, p % m1). */
  lemma IdxCovers(p: nat, m0: nat, m1: nat)
    requires p < m0 * m1
    ensures 0 < m1 && InGrid(p / m1, p % m1, m0, m1) && Idx(p / m1, p % m1, m0, m1) == p
  {
    assert 0 < m1;
    var q := p / m1;
    if m0 <= q {
      MulMono(m0, q, m1);
    }
  }

  /** Two different cells have different positions. */
  lemma IdxDistinct(a: nat, b: nat, c: nat, d: nat, m0: nat, m1: nat)
    requires InGrid(a, b, m0, m1) && InGrid(c, d, m0, m1) && (a != c || b != d)
    ensures Idx(a, b, m0, m1) != Idx(c, d, m0, m1)
  {
    if a < c {
      MulStep(a, c, m1);
    } else if c < a {
      MulStep(c, a, m1);
    }
  }

  // ---------------------------------------------------------------------
  // Which cells a sweep visits.
  // ---------------------------------------------------------------------

  /** The strict interior: every cell but the outer ring. */
  predicate Interior(x0: int, x1: int, m0: nat, m1: nat)
  {
    1 <= x0 < m0 - 1 && 1 <= x1 < m1 - 1
  }

  /** The sweep with iteration count k visits the interior cells of one
      checkerboard colour: those with (x0 + x1) mod 2 == (k + 1) mod 2. */
  predicate Visited(x0: int, x1: int, m0: nat, m1: nat, k: nat)
  {
    Interior(x0, x1, m0, m1) && Colour(x0, x1, k)
  }

  /** Cell (x0, x1) has the colour sweep k visits. */
  predicate Colour(x0: int, x1: int, k: nat)
  {
    (x0 + x1) % 2 == (k + 1) % 2
  }

  /** Along a row the colours alternate. */
  lemma ColourAlternates(x0: int, x1: int, k: nat)
    requires Colour(x0, x1, k)
    ensures !Colour(x0, x1 + 1, k) && Colour(x0, x1 + 2, k)
  {
  }

  /** The j-th column the inner loop reaches in row x0 has the colour sweep
      k visits. */
  lemma ColumnColour(x0: nat, k: nat, j: nat)
    ensures Colour(x0, 1 + RowOffset(x0, k) + 2 * j, k)
  {
  }

  /** Start column of row x0 in sweep k, minus one: 1 when the parities of
      the iteration count and of the row differ, else 0. */
  function RowOffset(x0: nat, k: nat): (o: nat)
    ensures o <= 1
  {
    if k % 2 != x0 % 2 then 1 else 0
  }

  /** When a row starts at column 2, column 1 has the colour the sweep
      leaves alone: no cell of the row left of the start column is updated. */
  lemma OffsetSkipsOtherColour(x0: nat, k: nat)
    ensures RowOffset(x0, k) == 1 ==> !Colour(x0, 1, k)
  {
    if k % 2 != x0 % 2 {
      assert (x0 + 1) % 2 == 1 - x0 % 2 && (k + 1) % 2 == 1 - k % 2;
    }
  }

  /** The four neighbours of a visited cell are never visited in the same
      sweep: they have the other colour. */
  lemma NeighboursHaveOtherColour(x0: nat, x1: nat, m0: nat, m1: nat, k: nat)
    requires Visited(x0, x1, m0, m1, k)
    ensures !Visited(x0 - 1, x1, m0, m1, k) && !Visited(x0 + 1, x1, m0, m1, k)
    ensures !Visited(x0, x1 - 1, m0, m1, k) && !Visited(x0, x1 + 1, m0, m1, k)
  {
  }

  /** Cells a sweep never writes: the outer ring and the locked cells. */
  predicate Frozen(locked: seq<bool>, x0: nat, x1: nat, m0: nat, m1: nat)
    requires |locked| == m0 * m1 && InGrid(x0, x1, m0, m1)
  {
    !Interior(x0, x1, m0, m1) || locked[Idx(x0, x1, m0, m1)]
  }

  /** The cells sweep k writes: visited and not locked. */
  predicate Updated(locked: seq<bool>, x0: nat, x1: nat, m0: nat, m1: nat, k: nat)
    requires |locked| == m0 * m1
  {
    Visited(x0, x1, m0, m1, k) && !locked[Idx(x0, x1, m0, m1)]
  }

  // ---------------------------------------------------------------------
  // The cell update.
  // ---------------------------------------------------------------------

  /** Over-relaxed four-point average: (1 - omega) * c + (omega / 4) * (sum of
      the four neighbours). The cell moves omega times the way from its value
      to the average of its neighbours. */
  function SorCell(omega: real, c: real, up: real, down: real, left: real, right: real): (r: real)
    ensures r - c == omega * ((up + down + left + right) / 4.0 - c)
  {
    (1.0 - omega) * c + (omega / 4.0) * (up + down + left + right)
  }

  /** A cell that already equals the average of its neighbours is left as it is. */
  lemma SorCellFixedPoint(omega: real, c: real, up: real, down: real, left: real, right: real)
    requires 4.0 * c == up + down + left + right
    ensures SorCell(omega, c, up, down, left, right) == c
  {
  }

  /** With omega = 1 the update is the plain (Gauss-Seidel) four-point average. */
  lemma SorCellUnitOmega(c: real, up: real, down: real, left: real, right: real)
    ensures SorCell(1.0, c, up, down, left, right) == (up + down + left + right) / 4.0
  {
  }

  /** The value the update gives interior cell (x0, x1) when every read is
      taken from the snapshot s. */
  function Relaxed(s: seq<real>, m0: nat, m1: nat, omega: real, x0: nat, x1: nat): real
    requires |s| == m0 * m1 && Interior(x0, x1, m0, m1)
  {
    SorCell(omega, s[Idx(x0, x1, m0, m1)],
            s[Idx(x0 - 1, x1, m0, m1)], s[Idx(x0 + 1, x1, m0, m1)],
            s[Idx(x0, x1 - 1, m0, m1)], s[Idx(x0, x1 + 1, m0, m1)])
  }

  /** A cell is harmonic in s when four times its value is the sum of its four
      neighbours, i.e. it equals their average. */
  predicate HarmonicAt(s: seq<real>, m0: nat, m1: nat, x0: nat, x1: nat)
    requires |s| == m0 * m1 && Interior(x0, x1, m0, m1)
  {
    4.0 * s[Idx(x0, x1, m0, m1)]
      == s[Idx(x0 - 1, x1, m0, m1)] + s[Idx(x0 + 1, x1, m0, m1)]
       + s[Idx(x0, x1 - 1, m0, m1)] + s[Idx(x0, x1 + 1, m0, m1)]
  }

  // ---------------------------------------------------------------------
  // What one sweep does, stated on values.
  // ---------------------------------------------------------------------

  /** Sweep k turns `before` into `after`: every cell it updates takes the
      relaxed value computed from `before` alone, every other cell keeps its
      value. Because a visited cell's neighbours all have the other colour,
      this is what the in-place sweep computes whatever the visiting order. */
  ghost predicate IsSorSweep(before: seq<real>, after: seq<real>, locked: seq<bool>,
                             m0: nat, m1: nat, omega: real, k: nat)
  {
    |before| == m0 * m1 && |after| == m0 * m1 && |locked| == m0 * m1 &&
    forall x0: nat, x1: nat :: InGrid(x0, x1, m0, m1) ==>
      after[Idx(x0, x1, m0, m1)]
        == if Updated(locked, x0, x1, m0, m1, k) then Relaxed(before, m0, m1, omega, x0, x1)
           else before[Idx(x0, x1, m0, m1)]
  }

  /** delta is the largest |before - after| over the cells sweep k updates,
      and 0 when it updates none. */
  ghost predicate IsSweepDelta(before: seq<real>, after: seq<real>, locked: seq<bool>,
                               m0: nat, m1: nat, k: nat, delta: real)
    requires |before| == m0 * m1 && |after| == m0 * m1 && |locked| == m0 * m1
  {
    0.0 <= delta &&
    (forall x0: nat, x1: nat :: InGrid(x0, x1, m0, m1) && Updated(locked, x0, x1, m0, m1, k) ==>
       Abs(before[Idx(x0, x1, m0, m1)] - after[Idx(x0, x1, m0, m1)]) <= delta) &&
    (delta == 0.0 ||
     exists x0: nat, x1: nat :: InGrid(x0, x1, m0, m1) && Updated(locked, x0, x1, m0, m1, k) &&
       Abs(before[Idx(x0, x1, m0, m1)] - after[Idx(x0, x1, m0, m1)]) == delta)
  }

  /** A sweep writes neither the outer ring, nor a locked cell, nor any cell of
      the colour it does not visit. */
  lemma SweepKeepsUnvisited(before: seq<real>, after: seq<real>, locked: seq<bool>,
                            m0: nat, m1: nat, omega: real, k: nat, x0: nat, x1: nat)
    requires IsSorSweep(before, after, locked, m0, m1, omega, k)
    requires InGrid(x0, x1, m0, m1)
    requires Frozen(locked, x0, x1, m0, m1) || !Colour(x0, x1, k)
    ensures after[Idx(x0, x1, m0, m1)] == before[Idx(x0, x1, m0, m1)]
  {
  }

  /** A grid whose updated cells are already harmonic is a fixed point of the
      sweep, and the sweep reports a zero delta. */
  lemma SweepFixedPoint(before: seq<real>, after: seq<real>, locked: seq<bool>,
                        m0: nat, m1: nat, omega: real, k: nat, delta: real)
    requires IsSorSweep(before, after, locked, m0, m1, omega, k)
    requires IsSweepDelta(before, after, locked, m0, m1, k, delta)
    requires forall x0: nat, x1: nat :: InGrid(x0, x1, m0, m1) && Updated(locked, x0, x1, m0, m1, k) ==>
               HarmonicAt(before, m0, m1, x0, x1)
    ensures after == before && delta == 0.0
  {
    forall x0: nat, x1: nat | InGrid(x0, x1, m0, m1)
      ensures after[Idx(x0, x1, m0, m1)] == before[Idx(x0, x1, m0, m1)]
    {
      if Updated(locked, x0, x1, m0, m1, k) {
        var s := before;
        SorCellFixedPoint(omega, s[Idx(x0, x1, m0, m1)],
                          s[Idx(x0 - 1, x1, m0, m1)], s[Idx(x0 + 1, x1, m0, m1)],
                          s[Idx(x0, x1 - 1, m0, m1)], s[Idx(x0, x1 + 1, m0, m1)]);
      }
    }
    forall p | 0 <= p < |after|
      ensures after[p] == before[p]
    {
      IdxCovers(p, m0, m1);
    }
  }

  /** Every unlocked interior cell of s is harmonic: both colours are
      already at rest. */
  ghost predicate AllHarmonic(s: seq<real>, locked: seq<bool>, m0: nat, m1: nat)
    requires |s| == m0 * m1 && |locked| == m0 * m1
  {
    forall x0: nat, x1: nat :: RestsAt(s, locked, m0, m1, x0, x1)
  }

  /** Cell (x0, x1) is harmonic if it is an unlocked interior cell. */
  predicate RestsAt(s: seq<real>, locked: seq<bool>, m0: nat, m1: nat, x0: nat, x1: nat)
    requires |s| == m0 * m1 && |locked| == m0 * m1
  {
    Interior(x0, x1, m0, m1) && !locked[Idx(x0, x1, m0, m1)] ==> HarmonicAt(s, m0, m1, x0, x1)
  }

  /** A grid at rest is left as it is by a sweep of either colour, which
      reports delta 0. */
  lemma AllHarmonicIsFixedPoint(before: seq<real>, after: seq<real>, locked: seq<bool>,
                                m0: nat, m1: nat, omega: real, k: nat, delta: real)
    requires IsSorSweep(before, after, locked, m0, m1, omega, k)
    requires IsSweepDelta(before, after, locked, m0, m1, k, delta)
    requires AllHarmonic(before, locked, m0, m1)
    ensures after == before && delta == 0.0
  {
    forall x0: nat, x1: nat | InGrid(x0, x1, m0, m1) && Updated(locked, x0, x1, m0, m1, k)
      ensures HarmonicAt(before, m0, m1, x0, x1)
    {
      assert RestsAt(before, locked, m0, m1, x0, x1);
    }
    SweepFixedPoint(before, after, locked, m0, m1, omega, k, delta);
  }

  // ---------------------------------------------------------------------
  // A run: the sequence of grids the solver goes through.
  // ---------------------------------------------------------------------

  /** trace[0] is the grid before the first sweep, and trace[k + 1] the grid
      after the sweep with iteration count k. */
  ghost predicate IsRun(trace: seq<seq<real>>, locked: seq<bool>, m0: nat, m1: nat, omega: real)
  {
    1 <= |trace| && |trace[0]| == m0 * m1 &&
    forall k :: 0 <= k < |trace| - 1 ==> IsSorSweep(trace[k], trace[k + 1], locked, m0, m1, omega, k)
  }

  /** However many sweeps run, the outer ring and the locked cells keep the
      values they started with. */
  lemma {:induction false} RunKeepsFrozen(trace: seq<seq<real>>, locked: seq<bool>,
                                           m0: nat, m1: nat, omega: real)
    requires IsRun(trace, locked, m0, m1, omega)
    requires |locked| == m0 * m1
    ensures |trace[|trace| - 1]| == m0 * m1
    ensures forall x0: nat, x1: nat :: InGrid(x0, x1, m0, m1) && Frozen(locked, x0, x1, m0, m1) ==>
              trace[|trace| - 1][Idx(x0, x1, m0, m1)] == trace[0][Idx(x0, x1, m0, m1)]
    decreases |trace|
  {
    if 1 < |trace| {
      var prefix := trace[..|trace| - 1];
      assert IsRun(prefix, locked, m0, m1, omega) by {
        forall k | 0 <= k < |prefix| - 1
          ensures IsSorSweep(prefix[k], prefix[k + 1], locked, m0, m1, omega, k)
        {
          assert prefix[k] == trace[k] && prefix[k + 1] == trace[k + 1];
        }
      }
      RunKeepsFrozen(prefix, locked, m0, m1, omega);
      var n := |trace| - 2;
      assert IsSorSweep(trace[n], trace[n + 1], locked, m0, m1, omega, n);
      forall x0: nat, x1: nat | InGrid(x0, x1, m0, m1) && Frozen(locked, x0, x1, m0, m1)
        ensures trace[n + 1][Idx(x0, x1, m0, m1)] == trace[0][Idx(x0, x1, m0, m1)]
      {
        SweepKeepsUnvisited(trace[n], trace[n + 1], locked, m0, m1, omega, n, x0, x1);
      }
    }
  }

  /** A grid at rest is left as it is by a sweep of either colour. */
  lemma AllHarmonicStep(before: seq<real>, after: seq<real>, locked: seq<bool>,
                        m0: nat, m1: nat, omega: real, k: nat)
    requires IsSorSweep(before, after, locked, m0, m1, omega, k)
    requires AllHarmonic(before, locked, m0, m1)
    ensures after == before
  {
    forall x0: nat, x1: nat | InGrid(x0, x1, m0, m1)
      ensures after[Idx(x0, x1, m0, m1)] == before[Idx(x0, x1, m0, m1)]
    {
      if Updated(locked, x0, x1, m0, m1, k) {
        assert RestsAt(before, locked, m0, m1, x0, x1);
        var s := before;
        SorCellFixedPoint(omega, s[Idx(x0, x1, m0, m1)],
                          s[Idx(x0 - 1, x1, m0, m1)], s[Idx(x0 + 1, x1, m0, m1)],
                          s[Idx(x0, x1 - 1, m0, m1)], s[Idx(x0, x1 + 1, m0, m1)]);
      }
    }
    forall p | 0 <= p < |after|
      ensures after[p] == before[p]
    {
      IdxCovers(p, m0, m1);
    }
  }

  /** A run that starts from a grid at rest never leaves it. */
  lemma {:induction false} AllHarmonicRun(trace: seq<seq<real>>, locked: seq<bool>, m0: nat, m1: nat, omega: real)
    requires IsRun(trace, locked, m0, m1, omega)
    requires |locked| == m0 * m1 && AllHarmonic(trace[0], locked, m0, m1)
    ensures forall k :: 0 <= k < |trace| ==> trace[k] == trace[0]
    decreases |trace|
  {
    if 1 < |trace| {
      var prefix := trace[..|trace| - 1];
      assert IsRun(prefix, locked, m0, m1, omega) by {
        forall k | 0 <= k < |prefix| - 1
          ensures IsSorSweep(prefix[k], prefix[k + 1], locked, m0, m1, omega, k)
        {
          assert prefix[k] == trace[k] && prefix[k + 1] == trace[k + 1];
        }
      }
      AllHarmonicRun(prefix, locked, m0, m1, omega);
      var n := |trace| - 2;
      assert trace[n] == prefix[n] == trace[0];
      AllHarmonicStep(trace[n], trace[n + 1], locked, m0, m1, omega, n);
      forall k | 0 <= k < |trace|
        ensures trace[k] == trace[0]
      {
        if k <= n {
          assert trace[k] == prefix[k];
        }
      }
    }
  }

  /** A run followed by sweep |trace| - 1 is a run one sweep longer. */
  lemma RunExtend(trace: seq<seq<real>>, next: seq<real>, locked: seq<bool>, m0: nat, m1: nat, omega: real)
    requires IsRun(trace, locked, m0, m1, omega)
    requires IsSorSweep(trace[|trace| - 1], next, locked, m0, m1, omega, |trace| - 1)
    ensures IsRun(trace + [next], locked, m0, m1, omega)
  {
    var t := trace + [next];
    forall k | 0 <= k < |t| - 1
      ensures IsSorSweep(t[k], t[k + 1], locked, m0, m1, omega, k)
    {
      if k < |trace| - 1 {
        assert t[k] == trace[k] && t[k + 1] == trace[k + 1];
      }
    }
  }

  // ---------------------------------------------------------------------
  // The solver state and the solver.
  // ---------------------------------------------------------------------

  /** The solver's parameter block: grid dimensions m[0..n-1], the flat value
      buffer u, the lock mask, the threshold epsilon, the relaxation factor
      omega and the iteration counter. Pointers may be null. */
  class Harmonic {
    var n: nat
    var m: array?<nat>
    var epsilon: real
    var omega: real
    var u: array?<real>
    var locked: array?<bool>
    var currentIteration: nat

    /** A parameter block holding the given fields. */
    constructor (n: nat, m: array?<nat>, u: array?<real>, locked: array?<bool>,
                 epsilon: real, omega: real, currentIteration: nat)
      ensures this.n == n && this.m == m && this.u == u && this.locked == locked
      ensures this.epsilon == epsilon && this.omega == omega
      ensures this.currentIteration == currentIteration
    {
      this.n, this.m, this.u, this.locked := n, m, u, locked;
      this.epsilon, this.omega, this.currentIteration := epsilon, omega, currentIteration;
    }
  }

  /** The guard of the solver: no null pointer, epsilon > 0 and 1 <= omega < 2. */
  predicate AcceptsInput(h: Harmonic?)
    reads h
  {
    h != null && h.m != null && h.u != null && h.locked != null &&
    0.0 < h.epsilon && 1.0 <= h.omega < 2.0
  }

  /** What the solver relies on without checking it: when the pointers are
      there, m holds at least the two grid dimensions and n entries, neither
      dimension is zero (m[0] - 1 and m[1] - 1 are computed unsigned), and u
      and locked hold m[0] * m[1] cells. */
  ghost predicate Shaped(h: Harmonic)
    reads h, h.m
  {
    h.m != null && h.u != null && h.locked != null ==>
      2 <= h.m.Length && h.n <= h.m.Length && 1 <= h.m[0] && 1 <= h.m[1] &&
      h.u.Length == h.m[0] * h.m[1] && h.locked.Length == h.u.Length
  }

  /** The largest of m[0..n-1], or 0 when n = 0: the iteration floor. */
  method MaxDimension(m: array<nat>, n: nat) returns (mMax: nat)
    requires n <= m.Length
    ensures forall i :: 0 <= i < n ==> m[i] <= mMax
    ensures n == 0 ==> mMax == 0
    ensures n > 0 ==> exists i :: 0 <= i < n && m[i] == mMax
  {
    mMax := 0;
    var i := 0;
    while i < n
      invariant 0 <= i <= n
      invariant forall j :: 0 <= j < i ==> m[j] <= mMax
      invariant i == 0 ==> mMax == 0
      invariant i > 0 ==> exists j :: 0 <= j < i && m[j] == mMax
    {
      if mMax < m[i] {
        mMax := m[i];
      }
      i := i + 1;
    }
  }

  // ---------------------------------------------------------------------
  // Progress of an in-place sweep, in row-major visiting order.
  // ---------------------------------------------------------------------

  /** cur is what sweep k has made of `before` once every cell before
      (x0, x1) has been visited: the cells it updated hold their relaxed
      values, all other cells their old ones. */
  ghost predicate SweptUpTo(before: seq<real>, cur: seq<real>, locked: seq<bool>,
                            m0: nat, m1: nat, omega: real, k: nat, x0: int, x1: int)
  {
    |before| == m0 * m1 && |cur| == m0 * m1 && |locked| == m0 * m1 &&
    forall a: nat, b: nat :: InGrid(a, b, m0, m1) ==>
      cur[Idx(a, b, m0, m1)]
        == if Before(a, b, x0, x1) && Updated(locked, a, b, m0, m1, k)
           then Relaxed(before, m0, m1, omega, a, b)
           else before[Idx(a, b, m0, m1)]
  }

  /** The running maximum once every cell before (x0, x1) has been visited;
      (w0, w1) is a cell that attains it. */
  ghost predicate DeltaUpTo(before: seq<real>, cur: seq<real>, locked: seq<bool>,
                            m0: nat, m1: nat, k: nat, x0: int, x1: int,
                            delta: real, w0: nat, w1: nat)
    requires |before| == m0 * m1 && |cur| == m0 * m1 && |locked| == m0 * m1
  {
    0.0 <= delta &&
    (forall a: nat, b: nat :: InGrid(a, b, m0, m1) && Before(a, b, x0, x1) && Updated(locked, a, b, m0, m1, k) ==>
       Abs(before[Idx(a, b, m0, m1)] - cur[Idx(a, b, m0, m1)]) <= delta) &&
    (delta == 0.0 ||
     (InGrid(w0, w1, m0, m1) && Before(w0, w1, x0, x1) && Updated(locked, w0, w1, m0, m1, k) &&
      Abs(before[Idx(w0, w1, m0, m1)] - cur[Idx(w0, w1, m0, m1)]) == delta))
  }

  /** Both progress facts at once. */
  ghost predicate Progress(before: seq<real>, cur: seq<real>, locked: seq<bool>,
                           m0: nat, m1: nat, omega: real, k: nat, x0: int, x1: int,
                           delta: real, w0: nat, w1: nat)
  {
    SweptUpTo(before, cur, locked, m0, m1, omega, k, x0, x1) &&
    DeltaUpTo(before, cur, locked, m0, m1, k, x0, x1, delta, w0, w1)
  }

  /** Moving the visiting position forward past cells the sweep does not
      update keeps both progress predicates. */
  lemma Skip(before: seq<real>, cur: seq<real>, locked: seq<bool>, m0: nat, m1: nat, omega: real, k: nat,
             x0: int, x1: int, y0: int, y1: int, delta: real, w0: nat, w1: nat)
    requires SweptUpTo(before, cur, locked, m0, m1, omega, k, x0, x1)
    requires DeltaUpTo(before, cur, locked, m0, m1, k, x0, x1, delta, w0, w1)
    requires !Before(y0, y1, x0, x1)
    requires forall a: nat, b: nat :: InGrid(a, b, m0, m1) && Before(a, b, y0, y1) && !Before(a, b, x0, x1) ==>
               !Updated(locked, a, b, m0, m1, k)
    ensures SweptUpTo(before, cur, locked, m0, m1, omega, k, y0, y1)
    ensures DeltaUpTo(before, cur, locked, m0, m1, k, y0, y1, delta, w0, w1)
  {
  }

  /** Entering row x0: the cells left of the first column the row visits
      are not updated. */
  lemma RowStart(before: seq<real>, cur: seq<real>, locked: seq<bool>, m0: nat, m1: nat, omega: real, k: nat,
                 x0: nat, delta: real, w0: nat, w1: nat)
    requires Progress(before, cur, locked, m0, m1, omega, k, x0, 0, delta, w0, w1)
    ensures Progress(before, cur, locked, m0, m1, omega, k, x0, 1 + RowOffset(x0, k), delta, w0, w1)
  {
    var start := 1 + RowOffset(x0, k);
    forall a: nat, b: nat | InGrid(a, b, m0, m1) && Before(a, b, x0, start) && !Before(a, b, x0, 0)
      ensures !Updated(locked, a, b, m0, m1, k)
    {
      OffsetSkipsOtherColour(x0, k);
    }
    Skip(before, cur, locked, m0, m1, omega, k, x0, 0, x0, start, delta, w0, w1);
  }

  /** Stepping two columns on from a cell of the visited colour: that cell
      has been dealt with (it is `from` columns behind) and the cell between
      has the other colour. */
  lemma StepTwo(before: seq<real>, cur: seq<real>, locked: seq<bool>, m0: nat, m1: nat, omega: real, k: nat,
                x0: nat, x1: nat, from: nat, delta: real, w0: nat, w1: nat)
    requires Progress(before, cur, locked, m0, m1, omega, k, x0, from, delta, w0, w1)
    requires Colour(x0, x1, k)
    requires from == x1 + 1 || (from == x1 && (InGrid(x0, x1, m0, m1) ==> !Updated(locked, x0, x1, m0, m1, k)))
    ensures Progress(before, cur, locked, m0, m1, omega, k, x0, x1 + 2, delta, w0, w1)
  {
    forall a: nat, b: nat | InGrid(a, b, m0, m1) && Before(a, b, x0, x1 + 2) && !Before(a, b, x0, from)
      ensures !Updated(locked, a, b, m0, m1, k)
    {
      if b == x1 + 1 {
        ColourAlternates(x0, x1, k);
      }
    }
    ColourAlternates(x0, x1, k);
    Skip(before, cur, locked, m0, m1, omega, k, x0, from, x0, x1 + 2, delta, w0, w1);
  }

  /** Leaving row x0: the columns from x1 = m1 - 1 on are the outer ring. */
  lemma RowEnd(before: seq<real>, cur: seq<real>, locked: seq<bool>, m0: nat, m1: nat, omega: real, k: nat,
               x0: nat, x1: nat, delta: real, w0: nat, w1: nat)
    requires Progress(before, cur, locked, m0, m1, omega, k, x0, x1, delta, w0, w1)
    requires m1 - 1 <= x1
    ensures Progress(before, cur, locked, m0, m1, omega, k, x0 + 1, 0, delta, w0, w1)
  {
    Skip(before, cur, locked, m0, m1, omega, k, x0, x1, x0 + 1, 0, delta, w0, w1);
  }

  /** At the moment sweep k reaches a cell it updates, the cell and its four
      neighbours still hold their pre-sweep values: the cell has not been
      written yet and its neighbours have the other colour. */
  lemma ReadsSeeBefore(before: seq<real>, cur: seq<real>, locked: seq<bool>, m0: nat, m1: nat,
                       omega: real, k: nat, x0: nat, x1: nat)
    requires SweptUpTo(before, cur, locked, m0, m1, omega, k, x0, x1)
    requires Visited(x0, x1, m0, m1, k)
    ensures cur[Idx(x0, x1, m0, m1)] == before[Idx(x0, x1, m0, m1)]
    ensures Relaxed(cur, m0, m1, omega, x0, x1) == Relaxed(before, m0, m1, omega, x0, x1)
  {
    NeighboursHaveOtherColour(x0, x1, m0, m1, k);
  }

  /** Writing one position of the buffer leaves every other cell as it was. */
  lemma WriteOneCell(cur: seq<real>, m0: nat, m1: nat, x0: nat, x1: nat, v: real)
    requires |cur| == m0 * m1 && InGrid(x0, x1, m0, m1)
    ensures forall a: nat, b: nat :: InGrid(a, b, m0, m1) && (a != x0 || b != x1) ==>
              cur[Idx(x0, x1, m0, m1) := v][Idx(a, b, m0, m1)] == cur[Idx(a, b, m0, m1)]
  {
    forall a: nat, b: nat | InGrid(a, b, m0, m1) && (a != x0 || b != x1)
      ensures cur[Idx(x0, x1, m0, m1) := v][Idx(a, b, m0, m1)] == cur[Idx(a, b, m0, m1)]
    {
      IdxDistinct(a, b, x0, x1, m0, m1);
    }
  }

  /** Visiting an updated cell as the solver does it: the over-relaxed value
      read from the current buffer is the relaxed value of `before`, and
      folding its change into the running maximum moves the position one
      cell on. */
  lemma Visit(before: seq<real>, cur: seq<real>, next: seq<real>, locked: seq<bool>,
              m0: nat, m1: nat, omega: real, k: nat, x0: nat, x1: nat,
              delta: real, w0: nat, w1: nat, delta': real, w0': nat, w1': nat)
    requires Progress(before, cur, locked, m0, m1, omega, k, x0, x1, delta, w0, w1)
    requires InGrid(x0, x1, m0, m1) && Updated(locked, x0, x1, m0, m1, k)
    requires next == cur[Idx(x0, x1, m0, m1) := Relaxed(cur, m0, m1, omega, x0, x1)]
    requires var diff := Abs(cur[Idx(x0, x1, m0, m1)] - next[Idx(x0, x1, m0, m1)]);
             if delta < diff then delta' == diff && w0' == x0 && w1' == x1
             else delta' == delta && w0' == w0 && w1' == w1
    ensures Progress(before, next, locked, m0, m1, omega, k, x0, x1 + 1, delta', w0', w1')
  {
    ReadsSeeBefore(before, cur, locked, m0, m1, omega, k, x0, x1);
    var v := Relaxed(before, m0, m1, omega, x0, x1);
    WriteAdvances(before, cur, locked, m0, m1, omega, k, x0, x1, v);
    DeltaAdvances(before, cur, locked, m0, m1, k, x0, x1, v, delta, w0, w1, delta', w0', w1');
  }

  /** Writing the relaxed value into the cell at (x0, x1) extends the
      swept region by that cell. */
  lemma WriteAdvances(before: seq<real>, cur: seq<real>, locked: seq<bool>, m0: nat, m1: nat,
                      omega: real, k: nat, x0: nat, x1: nat, v: real)
    requires SweptUpTo(before, cur, locked, m0, m1, omega, k, x0, x1)
    requires InGrid(x0, x1, m0, m1) && Updated(locked, x0, x1, m0, m1, k)
    requires v == Relaxed(before, m0, m1, omega, x0, x1)
    ensures SweptUpTo(before, cur[Idx(x0, x1, m0, m1) := v], locked, m0, m1, omega, k, x0, x1 + 1)
  {
    WriteOneCell(cur, m0, m1, x0, x1, v);
  }

  /** Folding the change at (x0, x1) into the running maximum extends the
      measured region by that cell. */
  lemma DeltaAdvances(before: seq<real>, cur: seq<real>, locked: seq<bool>, m0: nat, m1: nat,
                      k: nat, x0: nat, x1: nat, v: real,
                      delta: real, w0: nat, w1: nat, delta': real, w0': nat, w1': nat)
    requires |before| == m0 * m1 && |cur| == m0 * m1 && |locked| == m0 * m1
    requires DeltaUpTo(before, cur, locked, m0, m1, k, x0, x1, delta, w0, w1)
    requires InGrid(x0, x1, m0, m1) && Updated(locked, x0, x1, m0, m1, k)
    requires cur[Idx(x0, x1, m0, m1)] == before[Idx(x0, x1, m0, m1)]
    requires var diff := Abs(cur[Idx(x0, x1, m0, m1)] - v);
             if delta < diff then delta' == diff && w0' == x0 && w1' == x1
             else delta' == delta && w0' == w0 && w1' == w1
    ensures DeltaUpTo(before, cur[Idx(x0, x1, m0, m1) := v], locked, m0, m1, k, x0, x1 + 1, delta', w0', w1')
  {
    WriteOneCell(cur, m0, m1, x0, x1, v);
  }

  /** One pass of the inner loop over an updated cell: visit it, then step
      two columns on. */
  lemma VisitStep(before: seq<real>, cur: seq<real>, next: seq<real>, locked: seq<bool>,
                  m0: nat, m1: nat, omega: real, k: nat, x0: nat, x1: nat,
                  delta: real, w0: nat, w1: nat, delta': real, w0': nat, w1': nat)
    requires Progress(before, cur, locked, m0, m1, omega, k, x0, x1, delta, w0, w1)
    requires InGrid(x0, x1, m0, m1) && Updated(locked, x0, x1, m0, m1, k)
    requires next == cur[Idx(x0, x1, m0, m1) := Relaxed(cur, m0, m1, omega, x0, x1)]
    requires var diff := Abs(cur[Idx(x0, x1, m0, m1)] - next[Idx(x0, x1, m0, m1)]);
             if delta < diff then delta' == diff && w0' == x0 && w1' == x1
             else delta' == delta && w0' == w0 && w1' == w1
    ensures Progress(before, next, locked, m0, m1, omega, k, x0, x1 + 2, delta', w0', w1')
  {
    Visit(before, cur, next, locked, m0, m1, omega, k, x0, x1, delta, w0, w1, delta', w0', w1');
    StepTwo(before, next, locked, m0, m1, omega, k, x0, x1, x1 + 1, delta', w0', w1');
  }

  /** Once the position is past the last interior row the sweep is complete. */
  lemma Finish(before: seq<real>, cur: seq<real>, locked: seq<bool>, m0: nat, m1: nat, omega: real, k: nat,
               x0: int, delta: real, w0: nat, w1: nat)
    requires Progress(before, cur, locked, m0, m1, omega, k, x0, 0, delta, w0, w1)
    requires m0 - 1 <= x0
    ensures IsSorSweep(before, cur, locked, m0, m1, omega, k)
    ensures IsSweepDelta(before, cur, locked, m0, m1, k, delta)
  {
  }

  /** The body of the inner loop at cell (x0, x1) of the visited colour:
      skip it when locked, otherwise overwrite it with the over-relaxed
      average read from u itself and fold |old - new| into the running
      maximum. */
  method VisitCell(u: array<real>, locked: array<bool>, m0: nat, m1: nat, omega: real, k: nat,
                   x0: nat, x1: nat, delta: real, ghost before: seq<real>, ghost w0: nat, ghost w1: nat)
    returns (delta': real, ghost w0': nat, ghost w1': nat)
    requires u.Length == m0 * m1 && locked.Length == m0 * m1
    requires 1 <= x0 < m0 - 1 && 1 <= x1 < m1 - 1 && Colour(x0, x1, k)
    requires Progress(before, u[..], locked[..], m0, m1, omega, k, x0, x1, delta, w0, w1)
    modifies u
    ensures Progress(before, u[..], locked[..], m0, m1, omega, k, x0, x1 + 2, delta', w0', w1')
  {
    ghost var mask := locked[..];
    var p := Idx(x0, x1, m0, m1);
    if locked[p] {
      StepTwo(before, u[..], mask, m0, m1, omega, k, x0, x1, x1, delta, w0, w1);
      return delta, w0, w1;
    }
    ghost var cur := u[..];
    delta', w0', w1' := delta, w0, w1;
    var uPrevious := u[p];
    u[p] := SorCell(omega, u[p],
                    u[Idx(x0 - 1, x1, m0, m1)], u[Idx(x0 + 1, x1, m0, m1)],
                    u[Idx(x0, x1 - 1, m0, m1)], u[Idx(x0, x1 + 1, m0, m1)]);
    var difference := uPrevious - u[p];
    if difference < 0.0 {
      difference := -difference;
    }
    if delta' < difference {
      delta' := difference;
      w0', w1' := x0, x1;
    }
    VisitStep(before, cur, u[..], mask, m0, m1, omega, k, x0, x1, delta, w0, w1, delta', w0', w1');
  }

  /** The inner loop of a sweep: row x0, from column 1 + offset in steps of
      two. */
  method SweepRow(u: array<real>, locked: array<bool>, m0: nat, m1: nat, omega: real, k: nat,
                  x0: nat, delta: real, ghost before: seq<real>, ghost w0: nat, ghost w1: nat)
    returns (delta': real, ghost w0': nat, ghost w1': nat)
    requires u.Length == m0 * m1 && locked.Length == m0 * m1 && 1 <= m1 && 1 <= x0 < m0 - 1
    requires Progress(before, u[..], locked[..], m0, m1, omega, k, x0, 0, delta, w0, w1)
    modifies u
    ensures Progress(before, u[..], locked[..], m0, m1, omega, k, x0 + 1, 0, delta', w0', w1')
  {
    delta', w0', w1' := delta, w0, w1;
    var offset := RowOffset(x0, k);
    var x1: nat := 1 + offset;
    RowStart(before, u[..], locked[..], m0, m1, omega, k, x0, delta', w0', w1');
    ghost var j: nat := 0;
    while x1 < m1 - 1
      invariant x1 == 1 + offset + 2 * j
      invariant Progress(before, u[..], locked[..], m0, m1, omega, k, x0, x1, delta', w0', w1')
    {
      ColumnColour(x0, k, j);
      delta', w0', w1' := VisitCell(u, locked, m0, m1, omega, k, x0, x1, delta', before, w0', w1');
      x1, j := x1 + 2, j + 1;
    }
    RowEnd(before, u[..], locked[..], m0, m1, omega, k, x0, x1, delta', w0', w1');
  }

  /** One red-black sweep with iteration count k, in place on u: the
      unlocked interior cells of one colour are relaxed, and the largest
      change is returned. */
  method RedBlackSweep(u: array<real>, locked: array<bool>, m0: nat, m1: nat, omega: real, k: nat)
    returns (delta: real)
    requires 1 <= m0 && 1 <= m1 && u.Length == m0 * m1 && locked.Length == m0 * m1
    modifies u
    ensures IsSorSweep(old(u[..]), u[..], locked[..], m0, m1, omega, k)
    ensures IsSweepDelta(old(u[..]), u[..], locked[..], m0, m1, k, delta)
  {
    ghost var before, mask := u[..], locked[..];
    ghost var w0: nat, w1: nat := 0, 0;
    delta := 0.0;
    var x0: nat := 1;
    while x0 < m0 - 1
      invariant 1 <= x0 && (2 <= m0 ==> x0 <= m0 - 1)
      invariant Progress(before, u[..], mask, m0, m1, omega, k, x0, 0, delta, w0, w1)
    {
      delta, w0, w1 := SweepRow(u, locked, m0, m1, omega, k, x0, delta, before, w0, w1);
      x0 := x0 + 1;
    }
    Finish(before, u[..], mask, m0, m1, omega, k, x0, delta, w0, w1);
  }

  /** The solver's loop state after k sweeps: the run so far ends in cur, and
      after the first sweep, delta is the change of the last sweep, from prev. */
  ghost predicate RunSoFar(trace: seq<seq<real>>, prev: seq<real>, cur: seq<real>, locked: seq<bool>,
                           m0: nat, m1: nat, omega: real, k: nat, delta: real)
  {
    IsRun(trace, locked, m0, m1, omega) && |trace| == k + 1 && cur == trace[k] &&
    |locked| == m0 * m1 && |prev| == m0 * m1 && |cur| == m0 * m1 &&
    (1 <= k ==> prev == trace[k - 1] && IsSweepDelta(prev, cur, locked, m0, m1, k - 1, delta))
  }

  /** A sweep has one delta: the largest change over the cells it updates. */
  lemma SweepDeltaUnique(before: seq<real>, after: seq<real>, locked: seq<bool>,
                         m0: nat, m1: nat, k: nat, d: real, e: real)
    requires |before| == m0 * m1 && |after| == m0 * m1 && |locked| == m0 * m1
    requires IsSweepDelta(before, after, locked, m0, m1, k, d)
    requires IsSweepDelta(before, after, locked, m0, m1, k, e)
    ensures d == e
  {
    if d != 0.0 {
      var x0: nat, x1: nat :| InGrid(x0, x1, m0, m1) && Updated(locked, x0, x1, m0, m1, k) &&
        Abs(before[Idx(x0, x1, m0, m1)] - after[Idx(x0, x1, m0, m1)]) == d;
    }
    if e != 0.0 {
      var x0: nat, x1: nat :| InGrid(x0, x1, m0, m1) && Updated(locked, x0, x1, m0, m1, k) &&
        Abs(before[Idx(x0, x1, m0, m1)] - after[Idx(x0, x1, m0, m1)]) == e;
    }
  }

  /** d is the delta of sweep k - 1 of the run, the one that produced trace[k]. */
  ghost predicate StepDelta(trace: seq<seq<real>>, locked: seq<bool>, m0: nat, m1: nat, k: nat, d: real)
  {
    1 <= k < |trace| && |trace[k - 1]| == m0 * m1 && |trace[k]| == m0 * m1 && |locked| == m0 * m1 &&
    IsSweepDelta(trace[k - 1], trace[k], locked, m0, m1, k - 1, d)
  }

  /** No count below the given one passed the stopping test: after each of
      those sweeps the delta was above epsilon or the floor was not reached. */
  ghost predicate NoEarlierStop(trace: seq<seq<real>>, locked: seq<bool>, m0: nat, m1: nat,
                                epsilon: real, floor: nat, count: nat)
  {
    forall k: nat, d: real :: k < count && StepDelta(trace, locked, m0, m1, k, d) ==> epsilon < d || k < floor
  }

  /** The loop went on after count sweeps, so the run extended by one more
      sweep still has no earlier stop. */
  lemma NoEarlierStopExtend(trace: seq<seq<real>>, next: seq<real>, locked: seq<bool>, m0: nat, m1: nat,
                            epsilon: real, floor: nat, count: nat, delta: real)
    requires NoEarlierStop(trace, locked, m0, m1, epsilon, floor, count) && |trace| == count + 1
    requires 1 <= count ==> StepDelta(trace, locked, m0, m1, count, delta) && (epsilon < delta || count < floor)
    ensures NoEarlierStop(trace + [next], locked, m0, m1, epsilon, floor, count + 1)
  {
    var t := trace + [next];
    forall k: nat, d: real | k < count + 1 && StepDelta(t, locked, m0, m1, k, d)
      ensures epsilon < d || k < floor
    {
      assert t[k - 1] == trace[k - 1] && t[k] == trace[k];
      assert StepDelta(trace, locked, m0, m1, k, d);
      if k == count {
        SweepDeltaUnique(trace[k - 1], trace[k], locked, m0, m1, k - 1, d, delta);
      }
    }
  }

  /** With the floor the largest of m[0..n-1], a count below the floor is
      below some dimension. */
  lemma StopFloor(trace: seq<seq<real>>, locked: seq<bool>, m0: nat, m1: nat, epsilon: real,
                  m: array<nat>, n: nat, mMax: nat, count: nat)
    requires n <= m.Length
    requires n == 0 ==> mMax == 0
    requires n > 0 ==> exists i :: 0 <= i < n && m[i] == mMax
    requires NoEarlierStop(trace, locked, m0, m1, epsilon, mMax, count)
    ensures forall k: nat, d: real :: k < count && StepDelta(trace, locked, m0, m1, k, d) ==>
              epsilon < d || exists i :: 0 <= i < n && k < m[i]
  {
    forall k: nat, d: real | k < count && StepDelta(trace, locked, m0, m1, k, d) && d <= epsilon
      ensures exists i :: 0 <= i < n && k < m[i]
    {
      var i :| 0 <= i < n && m[i] == mMax;
    }
  }

  /** One pass of the solver's loop body: a red-black sweep with the current
      iteration count, then the count is incremented. The run recorded so far
      grows by the new grid; a run from a grid at rest stays where it is. */
  method Iteration(h: Harmonic, ghost mask: seq<bool>, ghost trace: seq<seq<real>>)
    returns (delta: real, ghost trace': seq<seq<real>>)
    requires h.m != null && h.u != null && h.locked != null && Shaped(h) && mask == h.locked[..]
    requires IsRun(trace, mask, h.m[0], h.m[1], h.omega) && |trace| == h.currentIteration + 1
    requires h.u[..] == trace[h.currentIteration]
    modifies h`currentIteration, h.u
    ensures h.currentIteration == old(h.currentIteration) + 1
    ensures trace' == trace + [h.u[..]] && IsRun(trace', mask, h.m[0], h.m[1], h.omega)
    ensures RunSoFar(trace', old(h.u[..]), h.u[..], mask, h.m[0], h.m[1], h.omega, h.currentIteration, delta)
    ensures AllHarmonic(trace[0], mask, h.m[0], h.m[1]) ==> h.u[..] == old(h.u[..]) && delta == 0.0
  {
    var u, m0, m1 := h.u, h.m[0], h.m[1];
    ghost var prev := u[..];
    if AllHarmonic(trace[0], mask, m0, m1) {
      AllHarmonicRun(trace, mask, m0, m1, h.omega);
    }
    delta := RedBlackSweep(u, h.locked, m0, m1, h.omega, h.currentIteration);
    if AllHarmonic(trace[0], mask, m0, m1) {
      AllHarmonicIsFixedPoint(prev, u[..], mask, m0, m1, h.omega, h.currentIteration, delta);
    }
    RunExtend(trace, u[..], mask, m0, m1, h.omega);
    trace' := trace + [u[..]];
    h.currentIteration := h.currentIteration + 1;
  }

  /** The sweep loop of the solver, once the input has been validated:
      sweep, alternating colours, until the last sweep's delta is within
      epsilon and the iteration count has reached the floor mMax. At most
      `fuel` sweeps run. */
  method Relax(h: Harmonic, mMax: nat, fuel: nat)
    returns (status: Status, ghost trace: seq<seq<real>>, ghost lastDelta: real)
    requires h.m != null && h.u != null && h.locked != null && Shaped(h) && 0.0 < h.epsilon
    modifies h`currentIteration, h.u
    ensures status == Success || status == FuelExhausted
    ensures IsRun(trace, h.locked[..], h.m[0], h.m[1], h.omega)
    ensures |trace| == h.currentIteration + 1
    ensures trace[0] == old(h.u[..]) && trace[h.currentIteration] == h.u[..]
    ensures status == FuelExhausted ==> h.currentIteration == fuel
    ensures status == Success ==>
              1 <= h.currentIteration && mMax <= h.currentIteration && lastDelta <= h.epsilon &&
              IsSweepDelta(trace[h.currentIteration - 1], trace[h.currentIteration], h.locked[..],
                           h.m[0], h.m[1], h.currentIteration - 1, lastDelta)
    ensures var floor := if mMax < 1 then 1 else mMax;
            AllHarmonic(old(h.u[..]), h.locked[..], h.m[0], h.m[1]) && floor <= fuel ==>
              status == Success && h.currentIteration == floor && h.u[..] == old(h.u[..]) && lastDelta == 0.0
    ensures NoEarlierStop(trace, h.locked[..], h.m[0], h.m[1], h.epsilon, mMax, h.currentIteration)
  {
    var u, locked, m0, m1 := h.u, h.locked, h.m[0], h.m[1];
    ghost var mask := locked[..];
    ghost var floor := if mMax < 1 then 1 else mMax;
    ghost var atRest := AllHarmonic(u[..], mask, m0, m1);
    h.currentIteration := 0;
    trace, lastDelta := [u[..]], 0.0;
    ghost var prev := u[..];
    ghost var u0 := u[..];

    var delta := h.epsilon + 1.0;
    while delta > h.epsilon || h.currentIteration < mMax
      invariant h.currentIteration <= fuel
      invariant RunSoFar(trace, prev, u[..], mask, m0, m1, h.omega, h.currentIteration, delta)
      invariant trace[0] == u0
      invariant h.currentIteration == 0 ==> delta > h.epsilon
      invariant atRest ==> h.currentIteration <= floor && (1 <= h.currentIteration ==> delta == 0.0)
      invariant NoEarlierStop(trace, mask, m0, m1, h.epsilon, mMax, h.currentIteration)
      decreases fuel - h.currentIteration
    {
      if h.currentIteration == fuel {
        return FuelExhausted, trace, delta;
      }
      ghost var trace0, count0, delta0 := trace, h.currentIteration, delta;
      prev := u[..];
      delta, trace := Iteration(h, mask, trace);
      NoEarlierStopExtend(trace0, u[..], mask, m0, m1, h.epsilon, mMax, count0, delta0);
    }
    if atRest {
      AllHarmonicRun(trace, mask, m0, m1, h.omega);
    }
    return Success, trace, delta;
  }

  /** harmonic_sor_2d_cpu: validate the parameter block, compute the
      iteration floor (the largest grid dimension), then run the sweep loop. */
  method HarmonicSor2d(h: Harmonic?, fuel: nat)
    returns (status: Status, ghost trace: seq<seq<real>>, ghost lastDelta: real)
    requires AcceptsInput(h) ==> Shaped(h)
    modifies h, if h != null && h.u != null then {h.u} else {}
    ensures status == InvalidData <==> !AcceptsInput(h)
    ensures h != null ==> h.n == old(h.n) && h.m == old(h.m) && h.u == old(h.u) &&
                          h.locked == old(h.locked) && h.epsilon == old(h.epsilon) && h.omega == old(h.omega)
    ensures status == InvalidData && h != null ==>
              h.currentIteration == old(h.currentIteration) && (h.u != null ==> h.u[..] == old(h.u[..]))
    ensures status != InvalidData ==>
              h != null && h.m != null && h.u != null && h.locked != null &&
              IsRun(trace, h.locked[..], h.m[0], h.m[1], h.omega) &&
              |trace| == h.currentIteration + 1 &&
              trace[0] == old(h.u[..]) && trace[h.currentIteration] == h.u[..]
    ensures status != InvalidData ==>
              forall x0: nat, x1: nat ::
                InGrid(x0, x1, h.m[0], h.m[1]) && Frozen(h.locked[..], x0, x1, h.m[0], h.m[1]) ==>
                  h.u[Idx(x0, x1, h.m[0], h.m[1])] == old(h.u[Idx(x0, x1, h.m[0], h.m[1])])
    ensures status == FuelExhausted ==> h.currentIteration == fuel
    ensures status == Success ==>
              1 <= h.currentIteration &&
              (forall i :: 0 <= i < h.n ==> h.m[i] <= h.currentIteration) &&
              IsSweepDelta(trace[h.currentIteration - 1], trace[h.currentIteration], h.locked[..],
                           h.m[0], h.m[1], h.currentIteration - 1, lastDelta) &&
              lastDelta <= h.epsilon
    ensures status != InvalidData && AllHarmonic(old(h.u[..]), h.locked[..], h.m[0], h.m[1]) &&
            1 <= fuel && (forall i :: 0 <= i < h.n ==> h.m[i] <= fuel) ==>
              status == Success && h.u[..] == old(h.u[..]) && lastDelta == 0.0 &&
              (h.currentIteration == 1 || exists i :: 0 <= i < h.n && h.m[i] == h.currentIteration)
    ensures status != InvalidData ==>
              forall k: nat, d: real :: k < h.currentIteration && StepDelta(trace, h.locked[..], h.m[0], h.m[1], k, d) ==>
                h.epsilon < d || exists i :: 0 <= i < h.n && k < h.m[i]
  {
    if h == null || h.m == null || h.u == null || h.locked == null ||
       h.epsilon <= 0.0 || h.omega < 1.0 || h.omega >= 2.0 {
      return InvalidData, [], 0.0;
    }
    var mMax := MaxDimension(h.m, h.n);
    status, trace, lastDelta := Relax(h, mMax, fuel);
    RunKeepsFrozen(trace, h.locked[..], h.m[0], h.m[1], h.omega);
    StopFloor(trace, h.locked[..], h.m[0], h.m[1], h.epsilon, h.m, h.n, mMax, h.currentIteration);
  }
}
