/**
  The Himeno benchmark: a Jacobi solver for the pressure on a box, after `himenoBMTxps.c`, in exact arithmetic and for
  any size of the box.
 */
module Himeno {

  // ----- Pressure fields

  datatype Place = Place(i: int, j: int, k: int)

  /** `MIMAX`, `MJMAX` and `MKMAX`. */
  datatype Dims = Dims(mi: nat, mj: nat, mk: nat)

  predicate InGrid(d: Dims, x: Place) {
    0 <= x.i < d.mi && 0 <= x.j < d.mj && 0 <= x.k < d.mk
  }

  /** The part that is initialised: without the last plane in each direction. */
  predicate InRegion(d: Dims, x: Place) {
    0 <= x.i < d.mi - 1 && 0 <= x.j < d.mj - 1 && 0 <= x.k < d.mk - 1
  }

  /** The part that is swept. */
  predicate Interior(d: Dims, x: Place) {
    1 <= x.i < d.mi - 2 && 1 <= x.j < d.mj - 2 && 1 <= x.k < d.mk - 2
  }

  type Field = imap<Place, real>

  ghost predicate Covers(d: Dims, g: Field) {
    forall x :: x in g <==> InGrid(d, x)
  }

  ghost function Average(d: Dims, g: Field, x: Place): real
    requires Covers(d, g) && Interior(d, x)
  {
    (g[x.(i := x.i + 1)] + g[x.(j := x.j + 1)] + g[x.(k := x.k + 1)]
      + g[x.(i := x.i - 1)] + g[x.(j := x.j - 1)] + g[x.(k := x.k - 1)]) / 6.0
  }

  /** One sweep: an interior point moves four fifths of the way to the average of its neighbours. */
  ghost function Sweep(d: Dims, g: Field): (r: Field)
    requires Covers(d, g)
    ensures Covers(d, r)
  {
    imap x | InGrid(d, x) :: if Interior(d, x) then g[x] + 0.8 * (Average(d, g, x) - g[x]) else g[x]
  }

  ghost function Sweeps(d: Dims, g: Field, n: nat): (r: Field)
    requires Covers(d, g)
    ensures Covers(d, r)
  {
    if n == 0 then g else Sweep(d, Sweeps(d, g, n - 1))
  }

  ghost predicate Below(d: Dims, g: Field, h: Field)
    requires Covers(d, g) && Covers(d, h)
  {
    forall x :: InGrid(d, x) ==> g[x] <= h[x]
  }

  /** How far the average of the neighbours is above a point. */
  ghost function Residue(d: Dims, g: Field, x: Place): real
    requires Covers(d, g) && Interior(d, x)
  {
    Average(d, g, x) - g[x]
  }

  ghost function SquaredResidual(d: Dims, g: Field, x: Place): real
    requires Covers(d, g)
  {
    if Interior(d, x) then Residue(d, g, x) * Residue(d, g, x) else 0.0
  }

  /** Where a loop from 1 to before m - 2 ends. */
  function End(m: nat): int {
    if m < 3 then 1 else m - 2
  }

  /** The sum of the squared residuals of the places that the three loops visit before (i, j, k). */
  ghost function SumTo(d: Dims, g: Field, i: int, j: int, k: int): real
    requires Covers(d, g)
    decreases i, j, k
  {
    if k > 1 then SumTo(d, g, i, j, k - 1) + SquaredResidual(d, g, Place(i, j, k - 1))
    else if j > 1 then SumTo(d, g, i, j - 1, End(d.mk))
    else if i > 1 then SumTo(d, g, i - 1, End(d.mj), 1)
    else 0.0
  }

  ghost function Gosa(d: Dims, g: Field): real
    requires Covers(d, g)
  {
    SumTo(d, g, End(d.mi), 1, 1)
  }

  /** The value returned after n sweeps: the sum as the last sweep found it. */
  ghost function Returned(d: Dims, g: Field, n: nat): real
    requires Covers(d, g) && n > 0
  {
    Gosa(d, Sweeps(d, g, n - 1))
  }

  /** How often the outer loop runs. */
  function Rounds(nn: int): nat {
    if nn < 0 then 0 else nn
  }

  /** (i, j, k) is a place the loops reach. */
  predicate InLoops(d: Dims, i: int, j: int, k: int) {
    && 1 <= i <= End(d.mi) && 1 <= j <= End(d.mj) && 1 <= k <= End(d.mk)
    && (j > 1 || k > 1 ==> i < d.mi - 2) && (k > 1 ==> j < d.mj - 2)
  }

  // ----- The comparison principle

  lemma Comparison(d: Dims, g: Field, h: Field)
    requires Covers(d, g) && Covers(d, h) && Below(d, g, h)
    ensures Below(d, Sweep(d, g), Sweep(d, h))
  {
    forall x | Interior(d, x) ensures Average(d, g, x) <= Average(d, h, x) {
    }
  }

  /** From a field that the first sweep does not lower, no sweep lowers any point. */
  lemma {:induction false} NeverLowered(d: Dims, g: Field, n: nat)
    requires Covers(d, g) && Below(d, g, Sweep(d, g))
    ensures Below(d, Sweeps(d, g, n), Sweeps(d, g, n + 1))
  {
    if n > 0 {
      NeverLowered(d, g, n - 1);
      Comparison(d, Sweeps(d, g, n - 1), Sweeps(d, g, n));
    }
  }

  /** A field that a sweep does not raise stays above whatever starts below it. */
  lemma {:induction false} NeverAbove(d: Dims, g: Field, h: Field, n: nat)
    requires Covers(d, g) && Covers(d, h) && Below(d, g, h) && Below(d, Sweep(d, h), h)
    ensures Below(d, Sweeps(d, g, n), h)
  {
    if n > 0 {
      NeverAbove(d, g, h, n - 1);
      Comparison(d, Sweeps(d, g, n - 1), h);
    }
  }

  lemma {:induction false} BoundaryFixed(d: Dims, g: Field, n: nat, x: Place)
    requires Covers(d, g) && InGrid(d, x) && !Interior(d, x)
    ensures Sweeps(d, g, n)[x] == g[x]
  {
    if n > 0 {
      BoundaryFixed(d, g, n - 1, x);
    }
  }

  lemma {:induction false} SweepsAdd(d: Dims, g: Field, m: nat, n: nat)
    requires Covers(d, g)
    ensures Sweeps(d, Sweeps(d, g, m), n) == Sweeps(d, g, m + n)
  {
    if n > 0 {
      SweepsAdd(d, g, m, n - 1);
    }
  }

  // ----- The start

  /** i / (imax - 1); the box is never two planes thick, where this would divide by zero. */
  function Slope(d: Dims, i: int): real
    requires d.mi > 2
  {
    i as real / (d.mi - 2) as real
  }

  /** (i * i) / ((imax - 1) * (imax - 1)). */
  function Parabola(d: Dims, i: int): real
    requires d.mi > 2
  {
    var x, m := i as real, (d.mi - 2) as real;
    Product(m, m);
    (x * x) / (m * m)
  }

  function StartAt(d: Dims, x: Place): real
    requires d.mi != 2
  {
    if InRegion(d, x) then Parabola(d, x.i) else 0.0
  }

  ghost function Start(d: Dims): (r: Field)
    requires d.mi != 2
    ensures Covers(d, r)
  {
    imap x | InGrid(d, x) :: StartAt(d, x)
  }

  ghost function Ramp(d: Dims): (r: Field)
    requires d.mi > 2
    ensures Covers(d, r)
  {
    imap x | InGrid(d, x) :: Slope(d, x.i)
  }

  /** A field that varies in the first direction only: its average is decided by the two neighbours there. */
  lemma AlongFirst(d: Dims, g: Field, x: Place)
    requires Covers(d, g) && Interior(d, x)
    requires g[x.(j := x.j + 1)] == g[x.(j := x.j - 1)] == g[x.(k := x.k + 1)] == g[x.(k := x.k - 1)] == g[x]
    ensures Average(d, g, x) >= g[x] <==> g[x.(i := x.i + 1)] + g[x.(i := x.i - 1)] >= 2.0 * g[x]
    ensures Average(d, g, x) <= g[x] <==> g[x.(i := x.i + 1)] + g[x.(i := x.i - 1)] <= 2.0 * g[x]
  {
  }

  lemma QuotientOfSum(a: real, b: real, m: real)
    requires m > 0.0
    ensures a / m + b / m == (a + b) / m
  {
  }

  lemma SlopeFlat(d: Dims, i: int)
    requires d.mi > 2
    ensures Slope(d, i + 1) + Slope(d, i - 1) == 2.0 * Slope(d, i)
  {
    var x, m := i as real, (d.mi - 2) as real;
    assert (i + 1) as real == x + 1.0 && (i - 1) as real == x - 1.0;
    QuotientOfSum(x + 1.0, x - 1.0, m);
    QuotientOfSum(x, x, m);
  }

  lemma QuotientOrder(a: real, b: real, m: real)
    requires m > 0.0 && a <= b
    ensures a / m <= b / m
  {
  }

  lemma Product(a: real, b: real)
    ensures a > 0.0 && b > 0.0 ==> a * b > 0.0
    ensures a >= 0.0 && b >= 0.0 ==> a * b >= 0.0
  {
  }

  lemma ParabolaConvex(d: Dims, i: int)
    requires d.mi > 2
    ensures Parabola(d, i + 1) + Parabola(d, i - 1) >= 2.0 * Parabola(d, i)
  {
    var x, m := i as real, (d.mi - 2) as real;
    var u, v, w, s := x * x, (x + 1.0) * (x + 1.0), (x - 1.0) * (x - 1.0), m * m;
    assert (i + 1) as real == x + 1.0 && (i - 1) as real == x - 1.0;
    assert Parabola(d, i + 1) == v / s && Parabola(d, i - 1) == w / s && Parabola(d, i) == u / s;
    Product(m, m);
    assert v + w == u + u + 2.0;
    QuotientOfSum(v, w, s);
    QuotientOfSum(u, u, s);
    QuotientOrder(u + u, v + w, s);
  }

  lemma RampAverage(d: Dims, x: Place)
    requires d.mi > 2 && Interior(d, x)
    ensures Average(d, Ramp(d), x) == Ramp(d)[x]
  {
    SlopeFlat(d, x.i);
    AlongFirst(d, Ramp(d), x);
  }

  lemma RampIsFlat(d: Dims)
    requires d.mi > 2
    ensures Sweep(d, Ramp(d)) == Ramp(d)
  {
    forall x | Interior(d, x) ensures Average(d, Ramp(d), x) == Ramp(d)[x] {
      RampAverage(d, x);
    }
  }

  /** The first sweep lowers nothing: a square is less than the mean of its neighbours. */
  lemma StartRises(d: Dims)
    requires d.mi != 2
    ensures Below(d, Start(d), Sweep(d, Start(d)))
  {
    forall x | Interior(d, x) ensures Start(d)[x] <= Average(d, Start(d), x) {
      ParabolaConvex(d, x.i);
      AlongFirst(d, Start(d), x);
    }
  }

  lemma Cancel(a: real, s: real)
    requires s > 0.0
    ensures (a * s) / s == a
  {
  }

  lemma CancelOnce(x: real, m: real, s: real, y: real)
    requires s == m * m && s > 0.0 && m > 0.0 && x == y * m
    ensures (x * m) / s == y
  {
    assert x * m == y * s;
    Cancel(y, s);
  }

  lemma SquareQuotientLess(x: real, m: real, s: real)
    requires 0.0 <= x <= m && m > 0.0 && s == m * m && s > 0.0
    ensures (x * x) / s <= x / m
  {
    var y := x / m;
    SquareLess(x, m);
    QuotientOrder(x * x, x * m, s);
    CancelOnce(x, m, s, y);
  }

  lemma SquareLess(x: real, m: real)
    requires 0.0 <= x <= m
    ensures x * x <= x * m
  {
    Product(x, m - x);
    assert x * (m - x) == x * m - x * x;
  }

  lemma ParabolaBelowSlope(d: Dims, i: int)
    requires d.mi > 2 && 0 <= i <= d.mi - 2
    ensures Parabola(d, i) <= Slope(d, i)
  {
    var x, m := i as real, (d.mi - 2) as real;
    Product(m, m);
    SquareQuotientLess(x, m, m * m);
    assert Slope(d, i) == x / m;
    assert Parabola(d, i) == (x * x) / (m * m);
  }

  lemma StartBelowRamp(d: Dims)
    requires d.mi > 2
    ensures Below(d, Start(d), Ramp(d))
  {
    forall x | InGrid(d, x) ensures Start(d)[x] <= Ramp(d)[x] {
      if InRegion(d, x) {
        ParabolaBelowSlope(d, x.i);
      }
    }
  }

  /** After any number of sweeps: edges as at the start, no point lower than before, none above the ramp. */
  lemma PressureRisesToRamp(d: Dims, n: nat)
    requires d.mi != 2
    ensures forall x :: InGrid(d, x) && !Interior(d, x) ==> Sweeps(d, Start(d), n)[x] == Start(d)[x]
    ensures Below(d, Sweeps(d, Start(d), n), Sweeps(d, Start(d), n + 1))
    ensures d.mi > 2 ==> Below(d, Sweeps(d, Start(d), n), Ramp(d))
  {
    forall x | InGrid(d, x) && !Interior(d, x) ensures Sweeps(d, Start(d), n)[x] == Start(d)[x] {
      BoundaryFixed(d, Start(d), n, x);
    }
    StartRises(d);
    NeverLowered(d, Start(d), n);
    if d.mi > 2 {
      StartBelowRamp(d);
      RampIsFlat(d);
      NeverAbove(d, Start(d), Ramp(d), n);
    }
  }

  // ----- The arrays

  /** The coefficients at one place. */
  datatype Coefs = Coefs(a0: real, a1: real, a2: real, a3: real, b0: real, b1: real, b2: real,
                         c0: real, c1: real, c2: real, wrk1: real, bnd: real)

  const CLEARED := Coefs(0.0, 0.0, 0.0, 0.0, 0.0, 0.0, 0.0, 0.0, 0.0, 0.0, 0.0, 0.0)
  const READY := Coefs(1.0, 1.0, 1.0, 1.0 / 6.0, 0.0, 0.0, 0.0, 1.0, 1.0, 1.0, 0.0, 1.0)

  /** What all arrays but the work array hold at one place. */
  datatype Cell = Cell(coefs: Coefs, p: real)

  /** The order of three nested loops. */
  predicate Earlier(x: Place, i: int, j: int, k: int) {
    x.i < i || (x.i == i && (x.j < j || (x.j == j && x.k < k)))
  }

  class Solver {
    const d: Dims
    const p: array3<real>
    const a: array4<real>
    const b: array4<real>
    const c: array4<real>
    const bnd: array3<real>
    const wrk1: array3<real>
    const wrk2: array3<real>
    const omega: real := 0.8

    predicate Fits3(t: array3<real>) {
      t.Length0 == d.mi && t.Length1 == d.mj && t.Length2 == d.mk
    }

    predicate Fits4(t: array4<real>, n: nat) {
      t.Length0 == n && t.Length1 == d.mi && t.Length2 == d.mj && t.Length3 == d.mk
    }

    /** Nine arrays of the right sizes, no two the same. */
    predicate Shaped() {
      && Fits3(p) && Fits3(bnd) && Fits3(wrk1) && Fits3(wrk2) && Fits4(a, 4) && Fits4(b, 3) && Fits4(c, 3)
      && p != bnd && p != wrk1 && p != wrk2 && bnd != wrk1 && bnd != wrk2 && wrk1 != wrk2
      && a != b && a != c && b != c
    }

    ghost function CoefsAt(x: Place): Coefs
      requires Shaped() && InGrid(d, x)
      reads a, b, c, bnd, wrk1
    {
      var i, j, k := x.i, x.j, x.k;
      Coefs(a[0, i, j, k], a[1, i, j, k], a[2, i, j, k], a[3, i, j, k], b[0, i, j, k], b[1, i, j, k], b[2, i, j, k],
            c[0, i, j, k], c[1, i, j, k], c[2, i, j, k], wrk1[i, j, k], bnd[i, j, k])
    }

    ghost function At(x: Place): Cell
      requires Shaped() && InGrid(d, x)
      reads p, a, b, c, bnd, wrk1
    {
      Cell(CoefsAt(x), p[x.i, x.j, x.k])
    }

    ghost function Pressure(): (g: Field)
      requires Shaped()
      reads p
      ensures Covers(d, g)
    {
      imap x | InGrid(d, x) :: p[x.i, x.j, x.k]
    }

    /** The coefficients that `initmt` leaves in the region. */
    ghost predicate Initialised()
      requires Shaped()
      reads a, b, c, bnd, wrk1
    {
      forall x :: InRegion(d, x) ==> CoefsAt(x) == READY
    }

    constructor (d: Dims)
      ensures Shaped() && this.d == d
    {
      this.d := d;
      p, bnd := new real[d.mi, d.mj, d.mk], new real[d.mi, d.mj, d.mk];
      wrk1, wrk2 := new real[d.mi, d.mj, d.mk], new real[d.mi, d.mj, d.mk];
      a, b, c := new real[4, d.mi, d.mj, d.mk], new real[3, d.mi, d.mj, d.mk], new real[3, d.mi, d.mj, d.mk];
    }

    method SetCoefs(i: int, j: int, k: int, v: Coefs)
      requires Shaped() && InGrid(d, Place(i, j, k))
      modifies a, b, c, bnd, wrk1
      ensures CoefsAt(Place(i, j, k)) == v
      ensures forall x :: InGrid(d, x) && x != Place(i, j, k) ==> CoefsAt(x) == old(CoefsAt(x))
    {
      a[0, i, j, k] := v.a0;
      a[1, i, j, k] := v.a1;
      a[2, i, j, k] := v.a2;
      a[3, i, j, k] := v.a3;
      b[0, i, j, k] := v.b0;
      b[1, i, j, k] := v.b1;
      b[2, i, j, k] := v.b2;
      c[0, i, j, k] := v.c0;
      c[1, i, j, k] := v.c1;
      c[2, i, j, k] := v.c2;
      wrk1[i, j, k] := v.wrk1;
      bnd[i, j, k] := v.bnd;
    }

    method SetCell(i: int, j: int, k: int, v: Cell)
      requires Shaped() && InGrid(d, Place(i, j, k))
      modifies p, a, b, c, bnd, wrk1
      ensures At(Place(i, j, k)) == v
      ensures forall x :: InGrid(d, x) && x != Place(i, j, k) ==> At(x) == old(At(x))
    {
      SetCoefs(i, j, k, v.coefs);
      p[i, j, k] := v.p;
    }

    /** The first three loops of `initmt`. */
    method ClearAll()
      requires Shaped()
      modifies p, a, b, c, bnd, wrk1
      ensures forall x :: InGrid(d, x) ==> At(x) == Cell(CLEARED, 0.0)
    {
      for i := 0 to d.mi
        invariant forall x :: InGrid(d, x) && Earlier(x, i, 0, 0) ==> At(x) == Cell(CLEARED, 0.0)
      {
        for j := 0 to d.mj
          invariant forall x :: InGrid(d, x) && Earlier(x, i, j, 0) ==> At(x) == Cell(CLEARED, 0.0)
        {
          for k := 0 to d.mk
            invariant forall x :: InGrid(d, x) && Earlier(x, i, j, k) ==> At(x) == Cell(CLEARED, 0.0)
          {
            SetCell(i, j, k, Cell(CLEARED, 0.0));
          }
        }
      }
    }

    /** What is at x once the places earlier than (i, j, k) are set. */
    ghost function Target(x: Place, i: int, j: int, k: int): Cell
      requires d.mi != 2
    {
      if InRegion(d, x) && Earlier(x, i, j, k) then Cell(READY, Parabola(d, x.i)) else Cell(CLEARED, 0.0)
    }

    /** The other three loops. */
    method SetRegion()
      requires Shaped() && d.mi != 2 && forall x :: InGrid(d, x) ==> At(x) == Cell(CLEARED, 0.0)
      modifies p, a, b, c, bnd, wrk1
      ensures forall x :: InGrid(d, x) ==> At(x) == Target(x, d.mi, 0, 0)
    {
      var imax, jmax, kmax := d.mi - 1, d.mj - 1, d.mk - 1;
      var i := 0;
      while i < imax
        invariant 0 <= i && forall x :: InGrid(d, x) ==> At(x) == Target(x, i, 0, 0)
      {
        var j := 0;
        while j < jmax
          invariant 0 <= j && forall x :: InGrid(d, x) ==> At(x) == Target(x, i, j, 0)
        {
          var k := 0;
          while k < kmax
            invariant 0 <= k && forall x :: InGrid(d, x) ==> At(x) == Target(x, i, j, k)
          {
            SetCell(i, j, k, Cell(READY, Parabola(d, i)));
            k := k + 1;
          }
          j := j + 1;
        }
        i := i + 1;
      }
    }

    /** `initmt`. */
    method Initmt()
      requires Shaped() && d.mi != 2
      modifies p, a, b, c, bnd, wrk1
      ensures Initialised() && Pressure() == Start(d)
    {
      ClearAll();
      SetRegion();
      assert forall x :: InGrid(d, x) ==> p[x.i, x.j, x.k] == At(x).p;
    }

    /** The residual at one place. */
    method Residual(i: int, j: int, k: int) returns (ss: real)
      requires Shaped() && Initialised() && Interior(d, Place(i, j, k))
      ensures ss == Residue(d, Pressure(), Place(i, j, k))
    {
      assert CoefsAt(Place(i, j, k)) == READY;
      var s0 := a[0, i, j, k] * p[i + 1, j, k]
        + a[1, i, j, k] * p[i, j + 1, k]
        + a[2, i, j, k] * p[i, j, k + 1]
        + b[0, i, j, k] * (p[i + 1, j + 1, k] - p[i + 1, j - 1, k] - p[i - 1, j + 1, k] + p[i - 1, j - 1, k])
        + b[1, i, j, k] * (p[i, j + 1, k + 1] - p[i, j - 1, k + 1] - p[i, j + 1, k - 1] + p[i, j - 1, k - 1])
        + b[2, i, j, k] * (p[i + 1, j, k + 1] - p[i - 1, j, k + 1] - p[i + 1, j, k - 1] + p[i - 1, j, k - 1])
        + c[0, i, j, k] * p[i - 1, j, k]
        + c[1, i, j, k] * p[i, j - 1, k]
        + c[2, i, j, k] * p[i, j, k - 1]
        + wrk1[i, j, k];
      ss := (s0 * a[3, i, j, k] - p[i, j, k]) * bnd[i, j, k];
    }

    /** wrk2 holds the new pressure of the interior places before (i, j, k). */
    ghost predicate Relaxed(next: Field, i: int, j: int, k: int)
      requires Shaped() && Covers(d, next)
      reads wrk2
    {
      forall x {:trigger next[x]} :: Interior(d, x) && Earlier(x, i, j, k) ==> wrk2[x.i, x.j, x.k] == next[x]
    }

    /** p holds the new pressure at the interior places before (i, j, k), the old one elsewhere. */
    ghost predicate Copied(g: Field, next: Field, i: int, j: int, k: int)
      requires Shaped() && Covers(d, g) && Covers(d, next)
      reads p
    {
      forall x {:trigger next[x]} :: InGrid(d, x) ==>
        p[x.i, x.j, x.k] == if Interior(d, x) && Earlier(x, i, j, k) then next[x] else g[x]
    }

    method RelaxCell(i: int, j: int, k: int, sum: real, ghost g: Field, ghost next: Field) returns (gosa: real)
      requires Shaped() && Initialised() && Interior(d, Place(i, j, k))
      requires Covers(d, g) && Covers(d, next) && g == Pressure() && next == Sweep(d, g)
      modifies wrk2
      ensures wrk2[i, j, k] == next[Place(i, j, k)]
      ensures forall x :: InGrid(d, x) && x != Place(i, j, k) ==> wrk2[x.i, x.j, x.k] == old(wrk2[x.i, x.j, x.k])
      ensures gosa == sum + SquaredResidual(d, g, Place(i, j, k))
    {
      var ss := Residual(i, j, k);
      gosa := AddSquare(sum, ss, g, Place(i, j, k));
      wrk2[i, j, k] := p[i, j, k] + omega * ss;
      assert g[Place(i, j, k)] == p[i, j, k];
    }

    /** `gosa += ss * ss`. */
    method AddSquare(sum: real, ss: real, ghost g: Field, ghost x: Place) returns (gosa: real)
      requires Covers(d, g) && Interior(d, x) && ss == Residue(d, g, x)
      ensures gosa == sum + SquaredResidual(d, g, x)
    {
      gosa := sum + ss * ss;
    }

    method RelaxNext(i: int, j: int, k: int, sum: real, ghost g: Field, ghost next: Field) returns (gosa: real)
      requires Shaped() && Initialised() && Interior(d, Place(i, j, k))
      requires Covers(d, g) && Covers(d, next) && g == Pressure() && next == Sweep(d, g)
      requires Relaxed(next, i, j, k) && sum == SumTo(d, g, i, j, k)
      modifies wrk2
      ensures Relaxed(next, i, j, k + 1) && gosa == SumTo(d, g, i, j, k + 1)
    {
      gosa := RelaxCell(i, j, k, sum, g, next);
    }

    /** The first half of a sweep, and the sum of the squared residuals. */
    method Relax(ghost g: Field, ghost next: Field) returns (gosa: real)
      requires Shaped() && Initialised()
      requires Covers(d, g) && Covers(d, next) && g == Pressure() && next == Sweep(d, g)
      modifies wrk2
      ensures Relaxed(next, d.mi, 0, 0) && gosa == Gosa(d, g)
    {
      gosa := 0.0;
      var i := 1;
      while i < d.mi - 2
        invariant 1 <= i && (d.mi >= 3 ==> i <= d.mi - 2) && (d.mi < 3 ==> i == 1)
        invariant Relaxed(next, i, 1, 1) && gosa == SumTo(d, g, i, 1, 1)
      {
        gosa := RelaxPlane(i, gosa, g, next);
        i := i + 1;
      }
    }

    method RelaxPlane(i: int, sum: real, ghost g: Field, ghost next: Field) returns (gosa: real)
      requires Shaped() && Initialised() && 1 <= i < d.mi - 2
      requires Covers(d, g) && Covers(d, next) && g == Pressure() && next == Sweep(d, g)
      requires Relaxed(next, i, 1, 1) && sum == SumTo(d, g, i, 1, 1)
      modifies wrk2
      ensures Relaxed(next, i + 1, 1, 1) && gosa == SumTo(d, g, i + 1, 1, 1)
    {
      gosa := sum;
      var j := 1;
      while j < d.mj - 2
        invariant 1 <= j && (d.mj >= 3 ==> j <= d.mj - 2) && (d.mj < 3 ==> j == 1)
        invariant Relaxed(next, i, j, 1) && gosa == SumTo(d, g, i, j, 1)
      {
        gosa := RelaxRow(i, j, gosa, g, next);
        j := j + 1;
      }
    }

    method RelaxRow(i: int, j: int, sum: real, ghost g: Field, ghost next: Field) returns (gosa: real)
      requires Shaped() && Initialised() && 1 <= i < d.mi - 2 && 1 <= j < d.mj - 2
      requires Covers(d, g) && Covers(d, next) && g == Pressure() && next == Sweep(d, g)
      requires Relaxed(next, i, j, 1) && sum == SumTo(d, g, i, j, 1)
      modifies wrk2
      ensures Relaxed(next, i, j + 1, 1) && gosa == SumTo(d, g, i, j + 1, 1)
    {
      gosa := RelaxCells(i, j, sum, g, next);
    }

    method RelaxCells(i: int, j: int, sum: real, ghost g: Field, ghost next: Field) returns (gosa: real)
      requires Shaped() && Initialised() && 1 <= i < d.mi - 2 && 1 <= j < d.mj - 2
      requires Covers(d, g) && Covers(d, next) && g == Pressure() && next == Sweep(d, g)
      requires Relaxed(next, i, j, 1) && sum == SumTo(d, g, i, j, 1)
      modifies wrk2
      ensures Relaxed(next, i, j, End(d.mk)) && gosa == SumTo(d, g, i, j, End(d.mk))
    {
      gosa := sum;
      var k := 1;
      while k < d.mk - 2
        invariant 1 <= k <= End(d.mk)
        invariant Relaxed(next, i, j, k) && gosa == SumTo(d, g, i, j, k)
      {
        gosa := RelaxNext(i, j, k, gosa, g, next);
        k := k + 1;
      }
      assert k == End(d.mk);
    }

    /** The second half. */
    method CopyBack(ghost g: Field, ghost next: Field)
      requires Shaped() && Covers(d, g) && Covers(d, next)
      requires Copied(g, next, 0, 0, 0) && Relaxed(next, d.mi, 0, 0)
      modifies p
      ensures Copied(g, next, d.mi, 0, 0)
    {
      var i := 1;
      while i < d.mi - 2
        invariant 1 <= i && Copied(g, next, i, 1, 1)
      {
        var j := 1;
        while j < d.mj - 2
          invariant 1 <= j && Copied(g, next, i, j, 1)
        {
          var k := 1;
          while k < d.mk - 2
            invariant 1 <= k && Copied(g, next, i, j, k)
          {
            p[i, j, k] := wrk2[i, j, k];
            k := k + 1;
          }
          j := j + 1;
        }
        i := i + 1;
      }
    }

    /** One round of the loop of `jacobi`. */
    method OneSweep() returns (gosa: real)
      requires Shaped() && Initialised()
      modifies p, wrk2
      ensures Initialised() && Pressure() == Sweep(d, old(Pressure())) && gosa == Gosa(d, old(Pressure()))
    {
      ghost var g := Pressure();
      ghost var next := Sweep(d, g);
      gosa := Relax(g, next);
      CopyBack(g, next);
      assert Pressure() == next;
    }

    method SweepAgain(ghost g: Field, ghost n: nat) returns (gosa: real)
      requires Shaped() && Initialised() && Covers(d, g) && Pressure() == Sweeps(d, g, n)
      modifies p, wrk2
      ensures Initialised() && Pressure() == Sweeps(d, g, n + 1) && gosa == Returned(d, g, n + 1)
    {
      gosa := OneSweep();
    }

    /** `jacobi`; the returned value is arbitrary when there is no sweep, as in the original. */
    method Jacobi(nn: int) returns (gosa: real)
      requires Shaped() && Initialised()
      modifies p, wrk2
      ensures Initialised() && Pressure() == Sweeps(d, old(Pressure()), Rounds(nn))
      ensures nn > 0 ==> gosa == Returned(d, old(Pressure()), nn)
    {
      ghost var g := Pressure();
      gosa := *;
      var n := 0;
      while n < nn
        invariant 0 <= n <= Rounds(nn)
        invariant Initialised() && Pressure() == Sweeps(d, g, n)
        invariant n > 0 ==> gosa == Returned(d, g, n)
      {
        gosa := SweepAgain(g, n);
        n := n + 1;
      }
      assert n == Rounds(nn);
    }

    /** The computation of `main`: a rehearsal of three sweeps, then the measured ones on top of it. */
    method Benchmark(nn: int) returns (gosa: real)
      requires Shaped() && d.mi > 2
      modifies p, a, b, c, bnd, wrk1, wrk2
      ensures Pressure() == Sweeps(d, Start(d), 3 + Rounds(nn))
      ensures Below(d, Pressure(), Ramp(d))
      ensures forall x :: InGrid(d, x) && !Interior(d, x) ==> Pressure()[x] == Start(d)[x]
    {
      Initmt();
      gosa := Jacobi(3);
      var more := Jacobi(nn);
      gosa := if nn > 0 then more else gosa;
      SweepsAdd(d, Start(d), 3, Rounds(nn));
      PressureRisesToRamp(d, 3 + Rounds(nn));
    }
  }

  /** The interior places before (i, j, k) stay as they are. */
  ghost predicate Still(d: Dims, g: Field, next: Field, i: int, j: int, k: int)
    requires Covers(d, g) && Covers(d, next)
  {
    forall x {:trigger next[x]} :: Interior(d, x) && Earlier(x, i, j, k) ==> next[x] == g[x]
  }

  lemma StillStep(d: Dims, g: Field, next: Field, i: int, j: int, k: int)
    requires Covers(d, g) && Covers(d, next) && Interior(d, Place(i, j, k))
    ensures Still(d, g, next, i, j, k + 1) <==>
      Still(d, g, next, i, j, k) && next[Place(i, j, k)] == g[Place(i, j, k)]
  {
    if Still(d, g, next, i, j, k + 1) {
      assert Earlier(Place(i, j, k), i, j, k + 1);
    }
  }

  lemma StillRow(d: Dims, g: Field, next: Field, i: int, j: int, k: int)
    requires Covers(d, g) && Covers(d, next) && k >= d.mk - 2
    ensures Still(d, g, next, i, j + 1, 1) <==> Still(d, g, next, i, j, k)
  {
  }

  lemma StillPlane(d: Dims, g: Field, next: Field, i: int, j: int)
    requires Covers(d, g) && Covers(d, next) && j >= d.mj - 2
    ensures Still(d, g, next, i + 1, 1, 1) <==> Still(d, g, next, i, j, 1)
  {
  }

  lemma QuotientSign(s: real, x: real)
    requires x > 0.0
    ensures s <= 0.0 ==> s / x <= 0.0
  {
  }

  lemma PositiveSquare(x: real, s: real)
    requires s == x * x
    ensures x > 0.0 ==> s > 0.0
  {
    if x > 0.0 {
      QuotientSign(s, x);
      assert s / x == x;
    }
  }

  lemma SquareSign(x: real, s: real)
    requires s == x * x
    ensures if x == 0.0 then s == 0.0 else s > 0.0
  {
    PositiveSquare(x, s);
    PositiveSquare(-x, s);
  }

  lemma SquareZero(d: Dims, g: Field, x: Place)
    requires Covers(d, g) && Interior(d, x)
    ensures if Sweep(d, g)[x] == g[x] then SquaredResidual(d, g, x) == 0.0 else SquaredResidual(d, g, x) > 0.0
  {
    SquareSign(Residue(d, g, x), SquaredResidual(d, g, x));
  }

  /** The sum is zero exactly when the places summed stay as they are. */
  lemma {:induction false} SumZero(d: Dims, g: Field, i: int, j: int, k: int)
    requires Covers(d, g) && InLoops(d, i, j, k)
    ensures Settled(d, g, Sweep(d, g), SumTo(d, g, i, j, k), i, j, k)
    decreases i, j, k
  {
    if k > 1 {
      SumZero(d, g, i, j, k - 1);
      SumZeroStep(d, g, i, j, k - 1);
    } else if j > 1 {
      SumZero(d, g, i, j - 1, End(d.mk));
      StillRow(d, g, Sweep(d, g), i, j - 1, End(d.mk));
    } else if i > 1 {
      SumZero(d, g, i - 1, End(d.mj), 1);
      StillPlane(d, g, Sweep(d, g), i - 1, End(d.mj));
    }
  }

  lemma SumZeroStep(d: Dims, g: Field, i: int, j: int, k: int)
    requires Covers(d, g) && Interior(d, Place(i, j, k))
    requires Settled(d, g, Sweep(d, g), SumTo(d, g, i, j, k), i, j, k)
    ensures Settled(d, g, Sweep(d, g), SumTo(d, g, i, j, k + 1), i, j, k + 1)
  {
    SquareZero(d, g, Place(i, j, k));
    SettledStep(d, g, Sweep(d, g), SumTo(d, g, i, j, k), SquaredResidual(d, g, Place(i, j, k)), i, j, k);
  }

  ghost predicate Settled(d: Dims, g: Field, next: Field, sum: real, i: int, j: int, k: int)
    requires Covers(d, g) && Covers(d, next)
  {
    sum >= 0.0 && (sum == 0.0 <==> Still(d, g, next, i, j, k))
  }

  lemma SettledStep(d: Dims, g: Field, next: Field, sum: real, square: real, i: int, j: int, k: int)
    requires Covers(d, g) && Covers(d, next) && Interior(d, Place(i, j, k)) && Settled(d, g, next, sum, i, j, k)
    requires if next[Place(i, j, k)] == g[Place(i, j, k)] then square == 0.0 else square > 0.0
    ensures Settled(d, g, next, sum + square, i, j, k + 1)
  {
    StillStep(d, g, next, i, j, k);
  }

  /** The value that `jacobi` returns is zero exactly when its last sweep changed nothing. */
  lemma GosaZero(d: Dims, g: Field)
    requires Covers(d, g)
    ensures Gosa(d, g) >= 0.0
    ensures Gosa(d, g) == 0.0 <==> Sweep(d, g) == g
  {
    SumZero(d, g, End(d.mi), 1, 1);
    assert Sweep(d, g) == g <==> Still(d, g, Sweep(d, g), End(d.mi), 1, 1);
  }
}
