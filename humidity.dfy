/** The soil-humidity cellular automaton of internal/boards/humidity.go.

    Each cell holds a humidity and an impermeability. One tick replaces the
    humidity of every cell that is neither a rain source nor (near-)rock by a
    weighted mean of itself and its four axis neighbours, capped at 1023; the
    cell itself weighs its impermeability k0, each neighbour i the reciprocal
    1/ki of its own. Beyond the grid edge lies a virtual dry rock cell
    (0, MaxFloat32). Every new value is computed from the grid as it was
    before the tick. */
module Humidity {
  import opened Common
  import opened Matrix

  type Grid = seq<seq<Cell>>

  /** The humidity cap of the update. */
  const MaxHumidity: real := 1023.0

  /** Cells at least this impermeable are left as they are by a tick. */
  const SkipThreshold: real := MaxFloat32 / 5.0 * 4.0

  /** The virtual neighbour beyond the grid edge: dry and impermeable. */
  const Edge: Cell := Cell(0.0, MaxFloat32)

  /** Every row of `g` is as long as row 0. */
  predicate Rectangular(g: Grid) {
    forall x :: 0 <= x < |g| ==> |g[x]| == |g[0]|
  }

  /** Every impermeability of `g` is positive, so every division of the
      update rule is defined. */
  predicate Permeable(g: Grid) {
    forall x, y :: 0 <= x < |g| && 0 <= y < |g[x]| ==> g[x][y].k > 0.0
  }

  /** `mask` has an entry for every cell of `g`. */
  predicate Covers<V>(mask: seq<seq<V>>, g: Grid) {
    |mask| >= |g| && forall x :: 0 <= x < |g| ==> |mask[x]| >= |g[x]|
  }

  /** Every humidity of `g` lies in [0, MaxHumidity]. */
  predicate HumidityInRange(g: Grid) {
    forall x, y :: 0 <= x < |g| && 0 <= y < |g[x]| ==> 0.0 <= g[x][y].h <= MaxHumidity
  }

  /** `a` and `b` have the same number of rows, row by row of the same length. */
  predicate SameShape<V, W>(a: seq<seq<V>>, b: seq<seq<W>>) {
    |a| == |b| && forall x :: 0 <= x < |a| ==> |a[x]| == |b[x]|
  }

  /** The preconditions of a tick: a rectangular grid of positive
      impermeabilities with a rain entry for every cell. */
  predicate Tickable(g: Grid, rain: seq<seq<bool>>) {
    Rectangular(g) && Permeable(g) && Covers(rain, g)
  }

  // ---------------------------------------------------------------------------
  // Neighbours

  /** The grid extended on every side by the virtual edge cell. */
  function Padded(g: Grid, x: int, y: int): Cell {
    if 0 <= x < |g| && 0 <= y < |g[x]| then g[x][y] else Edge
  }

  /** v1, the left neighbour (x - 1), as the source chooses it: the grid
      cell when there is one, the virtual edge cell past the border. */
  function Left(g: Grid, x: int, y: int): (v: Cell)
    requires 0 <= x < |g| && 0 <= y < |g[x]| && Rectangular(g)
    ensures v == Padded(g, x - 1, y)
  {
    if x > 0 then g[x - 1][y] else Edge
  }

  /** v2, the right neighbour (x + 1). */
  function Right(g: Grid, x: int, y: int): (v: Cell)
    requires 0 <= x < |g| && 0 <= y < |g[x]| && Rectangular(g)
    ensures v == Padded(g, x + 1, y)
  {
    if x < |g| - 1 then g[x + 1][y] else Edge
  }

  /** v3, the upper neighbour (y - 1). */
  function Up(g: Grid, x: int, y: int): (v: Cell)
    requires 0 <= x < |g| && 0 <= y < |g[x]|
    ensures v == Padded(g, x, y - 1)
  {
    if y > 0 then g[x][y - 1] else Edge
  }

  /** v4, the lower neighbour (y + 1); the source compares y with the length of
      row 0, which is the length of every row of a rectangular grid. */
  function Down(g: Grid, x: int, y: int): (v: Cell)
    requires 0 <= x < |g| && 0 <= y < |g[x]| && Rectangular(g)
    ensures v == Padded(g, x, y + 1)
  {
    if y < |g[0]| - 1 then g[x][y + 1] else Edge
  }

  /** Every neighbour of a permeable grid has a positive impermeability, and
      one whose grid has humidities in range has its humidity in range. */
  lemma NeighbourFacts(g: Grid, x: int, y: int)
    requires 0 <= x < |g| && 0 <= y < |g[x]| && Rectangular(g)
    ensures Permeable(g) ==>
              Left(g, x, y).k > 0.0 && Right(g, x, y).k > 0.0 &&
              Up(g, x, y).k > 0.0 && Down(g, x, y).k > 0.0
    ensures HumidityInRange(g) ==>
              0.0 <= Left(g, x, y).h <= MaxHumidity && 0.0 <= Right(g, x, y).h <= MaxHumidity &&
              0.0 <= Up(g, x, y).h <= MaxHumidity && 0.0 <= Down(g, x, y).h <= MaxHumidity
  {
  }

  // ---------------------------------------------------------------------------
  // The update rule of one cell

  lemma ReciprocalPositive(k: real)
    requires k > 0.0
    ensures 1.0 / k > 0.0
  {
  }

  /** The least and the greatest of five humidities. */
  function Lowest(v0: Cell, v1: Cell, v2: Cell, v3: Cell, v4: Cell): real {
    var a := if v0.h <= v1.h then v0.h else v1.h;
    var b := if v2.h <= v3.h then v2.h else v3.h;
    var c := if a <= b then a else b;
    if c <= v4.h then c else v4.h
  }

  function Highest(v0: Cell, v1: Cell, v2: Cell, v3: Cell, v4: Cell): real {
    var a := if v0.h >= v1.h then v0.h else v1.h;
    var b := if v2.h >= v3.h then v2.h else v3.h;
    var c := if a >= b then a else b;
    if c >= v4.h then c else v4.h
  }

  /** The weighted mean of the update: v0 weighs k0, each neighbour 1/ki. With
      positive weights it never leaves the range of the five humidities. */
  function WeightedMean(v0: Cell, v1: Cell, v2: Cell, v3: Cell, v4: Cell): (r: real)
    requires v0.k > 0.0 && v1.k > 0.0 && v2.k > 0.0 && v3.k > 0.0 && v4.k > 0.0
    ensures Lowest(v0, v1, v2, v3, v4) <= r <= Highest(v0, v1, v2, v3, v4)
  {
    ReciprocalPositive(v1.k);
    ReciprocalPositive(v2.k);
    ReciprocalPositive(v3.k);
    ReciprocalPositive(v4.k);
    MeanOfFiveBetween(v0, v1, v2, v3, v4, Lowest(v0, v1, v2, v3, v4), Highest(v0, v1, v2, v3, v4));
    (v0.h * v0.k + v1.h / v1.k + v2.h / v2.k + v3.h / v3.k + v4.h / v4.k)
      / (v0.k + 1.0 / v1.k + 1.0 / v2.k + 1.0 / v3.k + 1.0 / v4.k)
  }

  /** The new humidity of a cell that is updated: the weighted mean, capped. */
  function NewHumidity(v0: Cell, v1: Cell, v2: Cell, v3: Cell, v4: Cell): (r: real)
    requires v0.k > 0.0 && v1.k > 0.0 && v2.k > 0.0 && v3.k > 0.0 && v4.k > 0.0
    ensures r <= MaxHumidity
    ensures r <= WeightedMean(v0, v1, v2, v3, v4)
  {
    var r := WeightedMean(v0, v1, v2, v3, v4);
    if r > MaxHumidity then MaxHumidity else r
  }

  /** lo * w <= h * w <= hi * w for a positive weight. */
  lemma ScaleBetween(h: real, w: real, lo: real, hi: real)
    requires w > 0.0 && lo <= h <= hi
    ensures lo * w <= h * w <= hi * w
  {
  }

  /** A quotient whose numerator lies between lo and hi times its positive
      denominator lies between lo and hi. */
  lemma QuotientBetween(num: real, den: real, lo: real, hi: real)
    requires den > 0.0 && lo * den <= num <= hi * den
    ensures lo <= num / den <= hi
  {
    var q := num / den;
    assert q * den == num;
    assert (q - lo) * den >= 0.0;
    assert (hi - q) * den >= 0.0;
  }

  lemma SumLe(a0: real, a1: real, a2: real, a3: real, a4: real,
              b0: real, b1: real, b2: real, b3: real, b4: real)
    requires a0 <= b0 && a1 <= b1 && a2 <= b2 && a3 <= b3 && a4 <= b4
    ensures a0 + a1 + a2 + a3 + a4 <= b0 + b1 + b2 + b3 + b4
  {
  }

  lemma Distribute(c: real, w0: real, w1: real, w2: real, w3: real, w4: real)
    ensures c * (w0 + w1 + w2 + w3 + w4) == c * w0 + c * w1 + c * w2 + c * w3 + c * w4
  {
  }

  /** A sum of five values weighted positively lies between the total weight
      times any lower bound and times any upper bound of the values. */
  lemma WeightedSumBetween(h0: real, h1: real, h2: real, h3: real, h4: real,
                           w0: real, w1: real, w2: real, w3: real, w4: real, lo: real, hi: real)
    requires w0 > 0.0 && w1 > 0.0 && w2 > 0.0 && w3 > 0.0 && w4 > 0.0
    requires lo <= h0 <= hi && lo <= h1 <= hi && lo <= h2 <= hi && lo <= h3 <= hi && lo <= h4 <= hi
    ensures lo * (w0 + w1 + w2 + w3 + w4) <= h0 * w0 + h1 * w1 + h2 * w2 + h3 * w3 + h4 * w4
    ensures h0 * w0 + h1 * w1 + h2 * w2 + h3 * w3 + h4 * w4 <= hi * (w0 + w1 + w2 + w3 + w4)
  {
    ScaleBetween(h0, w0, lo, hi);
    ScaleBetween(h1, w1, lo, hi);
    ScaleBetween(h2, w2, lo, hi);
    ScaleBetween(h3, w3, lo, hi);
    ScaleBetween(h4, w4, lo, hi);
    Distribute(lo, w0, w1, w2, w3, w4);
    Distribute(hi, w0, w1, w2, w3, w4);
    SumLe(lo * w0, lo * w1, lo * w2, lo * w3, lo * w4, h0 * w0, h1 * w1, h2 * w2, h3 * w3, h4 * w4);
    SumLe(h0 * w0, h1 * w1, h2 * w2, h3 * w3, h4 * w4, hi * w0, hi * w1, hi * w2, hi * w3, hi * w4);
  }

  /** Dividing by k is weighing with 1/k. */
  lemma DivideIsWeigh(h: real, k: real)
    requires k > 0.0
    ensures h / k == h * (1.0 / k)
  {
  }

  /** The formula of the update lies within any bounds of the five
      humidities it averages, for positive impermeabilities. */
  lemma MeanOfFiveBetween(v0: Cell, v1: Cell, v2: Cell, v3: Cell, v4: Cell, lo: real, hi: real)
    requires v0.k > 0.0 && v1.k > 0.0 && v2.k > 0.0 && v3.k > 0.0 && v4.k > 0.0
    requires lo <= v0.h <= hi && lo <= v1.h <= hi && lo <= v2.h <= hi
    requires lo <= v3.h <= hi && lo <= v4.h <= hi
    ensures v0.k + 1.0 / v1.k + 1.0 / v2.k + 1.0 / v3.k + 1.0 / v4.k > 0.0
    ensures lo <= (v0.h * v0.k + v1.h / v1.k + v2.h / v2.k + v3.h / v3.k + v4.h / v4.k)
                  / (v0.k + 1.0 / v1.k + 1.0 / v2.k + 1.0 / v3.k + 1.0 / v4.k) <= hi
  {
    ReciprocalPositive(v1.k);
    ReciprocalPositive(v2.k);
    ReciprocalPositive(v3.k);
    ReciprocalPositive(v4.k);
    DivideIsWeigh(v1.h, v1.k);
    DivideIsWeigh(v2.h, v2.k);
    DivideIsWeigh(v3.h, v3.k);
    DivideIsWeigh(v4.h, v4.k);
    var w1, w2, w3, w4 := 1.0 / v1.k, 1.0 / v2.k, 1.0 / v3.k, 1.0 / v4.k;
    WeightedSumBetween(v0.h, v1.h, v2.h, v3.h, v4.h, v0.k, w1, w2, w3, w4, lo, hi);
    QuotientBetween(v0.h * v0.k + v1.h * w1 + v2.h * w2 + v3.h * w3 + v4.h * w4,
                    v0.k + w1 + w2 + w3 + w4, lo, hi);
  }

  /** An updated cell whose neighbourhood has humidities in [0, 1023] gets a
      humidity in [0, 1023]. */
  lemma NewHumidityInRange(v0: Cell, v1: Cell, v2: Cell, v3: Cell, v4: Cell)
    requires v0.k > 0.0 && v1.k > 0.0 && v2.k > 0.0 && v3.k > 0.0 && v4.k > 0.0
    requires 0.0 <= v0.h <= MaxHumidity && 0.0 <= v1.h <= MaxHumidity && 0.0 <= v2.h <= MaxHumidity
    requires 0.0 <= v3.h <= MaxHumidity && 0.0 <= v4.h <= MaxHumidity
    ensures 0.0 <= NewHumidity(v0, v1, v2, v3, v4) <= MaxHumidity
  {
  }

  // ---------------------------------------------------------------------------
  // One tick

  /** Whether the tick leaves cell (x, y) as it is: a rain source, or a cell at
      least SkipThreshold impermeable. The rock mask plays no part. */
  predicate Skipped(g: Grid, rain: seq<seq<bool>>, x: int, y: int)
    requires 0 <= x < |g| && 0 <= y < |g[x]| && Covers(rain, g)
    ensures rain[x][y] ==> Skipped(g, rain, x, y)
    ensures g[x][y].k >= MaxFloat32 ==> Skipped(g, rain, x, y)
    ensures !rain[x][y] && g[x][y].k <= MaxFloat32 / 2.0 ==> !Skipped(g, rain, x, y)
  {
    rain[x][y] || g[x][y].k >= SkipThreshold
  }

  /** The value of cell (x, y) after one tick of the grid `g`: a skipped cell
      as it was, any other the capped mean over the padded grid, with its
      impermeability kept either way. */
  function StepCell(g: Grid, rain: seq<seq<bool>>, x: int, y: int): (c: Cell)
    requires Tickable(g, rain) && 0 <= x < |g| && 0 <= y < |g[x]|
    ensures c.k == g[x][y].k
    ensures Skipped(g, rain, x, y) ==> c == g[x][y]
    ensures !Skipped(g, rain, x, y) ==>
      Padded(g, x - 1, y).k > 0.0 && Padded(g, x + 1, y).k > 0.0 &&
      Padded(g, x, y - 1).k > 0.0 && Padded(g, x, y + 1).k > 0.0 &&
      c.h == NewHumidity(g[x][y], Padded(g, x - 1, y), Padded(g, x + 1, y),
                         Padded(g, x, y - 1), Padded(g, x, y + 1))
  {
    var v0 := g[x][y];
    if Skipped(g, rain, x, y) then v0
    else
      NeighbourFacts(g, x, y);
      Cell(NewHumidity(v0, Left(g, x, y), Right(g, x, y), Up(g, x, y), Down(g, x, y)), v0.k)
  }

  /** The grid after one tick: every cell computed from `g` alone. */
  function Step(g: Grid, rain: seq<seq<bool>>): (r: Grid)
    requires Tickable(g, rain)
    ensures SameShape(r, g) && Tickable(r, rain)
    ensures forall x, y :: 0 <= x < |g| && 0 <= y < |g[x]| ==> r[x][y].k == g[x][y].k
  {
    seq(|g|, x requires 0 <= x < |g| =>
      seq(|g[x]|, y requires 0 <= y < |g[x]| => StepCell(g, rain, x, y)))
  }

  /** A rain source or a near-rock cell keeps its value exactly; every other
      cell gets the capped weighted mean of itself and its four neighbours in
      the padded grid, and keeps its impermeability. */
  lemma StepRule(g: Grid, rain: seq<seq<bool>>, x: int, y: int)
    requires Tickable(g, rain) && 0 <= x < |g| && 0 <= y < |g[x]|
    ensures Skipped(g, rain, x, y) ==> Step(g, rain)[x][y] == g[x][y]
    ensures !Skipped(g, rain, x, y) ==>
      Padded(g, x - 1, y).k > 0.0 && Padded(g, x + 1, y).k > 0.0 &&
      Padded(g, x, y - 1).k > 0.0 && Padded(g, x, y + 1).k > 0.0 &&
      Step(g, rain)[x][y] == Cell(NewHumidity(g[x][y], Padded(g, x - 1, y), Padded(g, x + 1, y),
                                              Padded(g, x, y - 1), Padded(g, x, y + 1)), g[x][y].k)
  {
  }

  /** A tick keeps every humidity of a grid within [0, 1023]. */
  lemma StepInRange(g: Grid, rain: seq<seq<bool>>)
    requires Tickable(g, rain) && HumidityInRange(g)
    ensures HumidityInRange(Step(g, rain))
  {
    var r: Grid := Step(g, rain);
    forall x: int, y: int | 0 <= x < |r| && 0 <= y < |r[x]|
      ensures 0.0 <= r[x][y].h <= MaxHumidity
    {
      if !Skipped(g, rain, x, y) {
        NeighbourFacts(g, x, y);
        NewHumidityInRange(g[x][y], Left(g, x, y), Right(g, x, y), Up(g, x, y), Down(g, x, y));
      }
    }
  }

  /** A wet cell whose four neighbours are all the dry edge loses humidity in
      the mean, but not all of it. */
  lemma EdgeMeanDries(v0: Cell)
    requires v0.k > 0.0 && v0.h > 0.0
    ensures 0.0 < WeightedMean(v0, Edge, Edge, Edge, Edge) < v0.h
  {
    var e := 1.0 / MaxFloat32;
    ReciprocalPositive(MaxFloat32);
    assert 0.0 / MaxFloat32 == 0.0;
    var num := v0.h * v0.k;
    var den := v0.k + e + e + e + e;
    var mean := WeightedMean(v0, Edge, Edge, Edge, Edge);
    assert mean == num / den;
    assert mean * den == num;
    assert num > 0.0;
    assert (v0.h - mean) * den == v0.h * (e + e + e + e);
    PositiveFactor(v0.h - mean, den);
  }

  /** A product that is positive with a positive factor has a positive other
      factor. */
  lemma PositiveFactor(a: real, b: real)
    requires b > 0.0 && a * b > 0.0
    ensures a > 0.0
  {
  }

  /** The 1x1 example: a lone cell (500, 1) surrounded by the dry edge loses
      humidity, but not all of it, in one tick. */
  lemma LoneCellDries()
    ensures Tickable([[Cell(500.0, 1.0)]], [[false]])
    ensures 0.0 < Step([[Cell(500.0, 1.0)]], [[false]])[0][0].h < 500.0
  {
    var g := [[Cell(500.0, 1.0)]];
    assert Tickable(g, [[false]]);
    StepRule(g, [[false]], 0, 0);
    EdgeMeanDries(g[0][0]);
  }

  // ---------------------------------------------------------------------------
  // Snapshot-then-commit: the visiting order does not matter

  /** All coordinates in `order` lie within `g`. */
  predicate InGrid(g: Grid, order: seq<(int, int)>) {
    forall i :: 0 <= i < |order| ==> 0 <= order[i].0 < |g| && 0 <= order[i].1 < |g[order[i].0]|
  }

  /** Whether `order` visits cell (x, y). */
  predicate Visits(order: seq<(int, int)>, x: int, y: int) {
    (x, y) in order
  }

  /** Writes into `buf`, in the given order, the post-tick value of each cell,
      every value computed from the snapshot `g`. */
  function WriteCells(g: Grid, rain: seq<seq<bool>>, buf: Grid, order: seq<(int, int)>): (r: Grid)
    requires Tickable(g, rain) && SameShape(buf, g) && InGrid(g, order)
    ensures SameShape(r, g)
    ensures forall x, y :: 0 <= x < |g| && 0 <= y < |g[x]| && !Visits(order, x, y) ==> r[x][y] == buf[x][y]
    decreases |order|
  {
    if order == [] then buf
    else
      var (x, y) := order[0];
      WriteCells(g, rain, buf[x := buf[x][y := StepCell(g, rain, x, y)]], order[1..])
  }

  /** After WriteCells a visited cell holds its post-tick value and any other
      cell what `buf` held. */
  lemma {:induction false} WriteCellsAt(g: Grid, rain: seq<seq<bool>>, buf: Grid, order: seq<(int, int)>)
    requires Tickable(g, rain) && SameShape(buf, g) && InGrid(g, order)
    ensures forall x, y :: 0 <= x < |g| && 0 <= y < |g[x]| ==>
              WriteCells(g, rain, buf, order)[x][y] ==
                if Visits(order, x, y) then StepCell(g, rain, x, y) else buf[x][y]
    decreases |order|
  {
    if order != [] {
      var (x0, y0) := order[0];
      var buf' := buf[x0 := buf[x0][y0 := StepCell(g, rain, x0, y0)]];
      assert InGrid(g, order[1..]);
      WriteCellsAt(g, rain, buf', order[1..]);
      forall x, y | 0 <= x < |g| && 0 <= y < |g[x]|
        ensures Visits(order, x, y) <==> (x, y) == (x0, y0) || Visits(order[1..], x, y)
      {
        assert order == [order[0]] + order[1..];
      }
    }
  }

  /** Order independence: whatever buffer of the right shape the tick writes
      into and in whatever order it visits the cells, as long as it visits
      them all, the result is Step(g, rain). */
  lemma OrderIndependent(g: Grid, rain: seq<seq<bool>>, buf: Grid, order: seq<(int, int)>)
    requires Tickable(g, rain) && SameShape(buf, g) && InGrid(g, order)
    requires forall x, y :: 0 <= x < |g| && 0 <= y < |g[x]| ==> Visits(order, x, y)
    ensures WriteCells(g, rain, buf, order) == Step(g, rain)
  {
    WriteCellsAt(g, rain, buf, order);
    var w := WriteCells(g, rain, buf, order);
    var s := Step(g, rain);
    assert |w| == |s|;
    forall x | 0 <= x < |w|
      ensures w[x] == s[x]
    {
      assert |w[x]| == |s[x]|;
    }
  }

  // ---------------------------------------------------------------------------
  // Many ticks

  /** The grid after `n` ticks. */
  function Iterate(g: Grid, rain: seq<seq<bool>>, n: nat): (r: Grid)
    requires Tickable(g, rain)
    ensures SameShape(r, g) && Tickable(r, rain)
    ensures forall x, y :: 0 <= x < |g| && 0 <= y < |g[x]| ==> r[x][y].k == g[x][y].k
    decreases n
  {
    if n == 0 then g else Iterate(Step(g, rain), rain, n - 1)
  }

  /** Humidities stay within [0, 1023] after any number of ticks. */
  lemma {:induction false} IterateInRange(g: Grid, rain: seq<seq<bool>>, n: nat)
    requires Tickable(g, rain) && HumidityInRange(g)
    ensures HumidityInRange(Iterate(g, rain, n))
    decreases n
  {
    if n > 0 {
      var s := Step(g, rain);
      StepInRange(g, rain);
      IterateInRange(s, rain, n - 1);
      assert HumidityInRange(Iterate(s, rain, n - 1));
    }
  }

  /** A rain source or a near-rock cell keeps its value through any number of
      ticks; in particular a rain cell built at 1023 stays at 1023. */
  lemma {:induction false} IterateKeepsSkipped(g: Grid, rain: seq<seq<bool>>, n: nat, x: int, y: int)
    requires Tickable(g, rain) && 0 <= x < |g| && 0 <= y < |g[x]|
    requires Skipped(g, rain, x, y)
    ensures Iterate(g, rain, n)[x][y] == g[x][y]
    decreases n
  {
    if n > 0 {
      var s := Step(g, rain);
      StepRule(g, rain, x, y);
      assert Skipped(s, rain, x, y);
      IterateKeepsSkipped(s, rain, n - 1, x, y);
    }
  }

  // ---------------------------------------------------------------------------
  // Building a grid from masks

  /** A grid the size of `rockMask`: cells default to (0, 1), rock cells become
      (0, MaxFloat32), then rain cells (1023, 1), so rain wins where both are
      set. A rain mask of another size is ignored (its error is dropped). */
  method MakeHumidityGrid(rockMask: seq<seq<bool>>, rainMask: seq<seq<bool>>) returns (grid: Grid)
    requires |rockMask| > 0 && RowsAtLeast(rockMask, |rockMask[0]|)
    requires SameSize(rockMask, rainMask) ==> RowsAtLeast(rainMask, |rockMask[0]|)
    ensures IsMatrix(grid, |rockMask|, |rockMask[0]|)
    ensures forall x, y :: 0 <= x < |rockMask| && 0 <= y < |rockMask[0]| ==>
              grid[x][y] == if SameSize(rockMask, rainMask) && rainMask[x][y] then Cell(MaxHumidity, 1.0)
                            else if rockMask[x][y] then Cell(0.0, MaxFloat32)
                            else Cell(0.0, 1.0)
    ensures Rectangular(grid) && HumidityInRange(grid)
    ensures forall x, y :: 0 <= x < |grid| && 0 <= y < |grid[x]| ==> grid[x][y].k >= 1.0
  {
    grid := MakeMatrixWH(|rockMask|, |rockMask[0]|, Cell(0.0, 1.0));
    var rocks, rainy, err;
    rocks, err := ApplyMaskOnMatrix(grid, rockMask, Cell(0.0, MaxFloat32));
    rainy, err := ApplyMaskOnMatrix(rocks, rainMask, Cell(MaxHumidity, 1.0));
    grid := rainy;
  }

  // ---------------------------------------------------------------------------
  // Drawing

  /** The colour Draw gives a cell: black under the hover cursor, otherwise
      white with an alpha proportional to the impermeability on a rock, otherwise
      a hue from 0 to 240 proportional to the humidity. */
  function CellColor(v0: Cell, rock: bool, hovered: bool): (c: Color)
    ensures hovered ==> c == Black
    ensures !hovered && rock ==> c.RockShade? && (0.0 < v0.k <= MaxFloat32 ==> 0.0 < c.alpha <= 255.0)
    ensures !hovered && !rock ==> c.Hue? && (0.0 <= v0.h <= MaxHumidity ==> 0.0 <= c.hue <= 240.0)
  {
    if hovered then Black
    else if rock then RockShade(v0.k / MaxFloat32 * 255.0)
    else Hue(v0.h / MaxHumidity * 240.0)
  }

  /** Sets cell (x, y) of a mask to `b`, and no other. */
  function SetAt(mask: seq<seq<bool>>, x: int, y: int, b: bool): (r: seq<seq<bool>>)
    requires 0 <= x < |mask| && 0 <= y < |mask[x]|
    ensures SameShape(r, mask)
    ensures r[x][y] == b
    ensures forall i, j :: 0 <= i < |mask| && 0 <= j < |mask[i]| && (i, j) != (x, y) ==> r[i][j] == mask[i][j]
  {
    mask[x := mask[x][y := b]]
  }

  /** The rock mask after a click with `btn` at (x, y): the left button sets
      the cell, the right button clears it, other buttons change nothing. */
  function Clicked(rocks: seq<seq<bool>>, btn: MouseButton, x: int, y: int): (r: seq<seq<bool>>)
    requires btn == MouseButtonLeft || btn == MouseButtonRight ==> 0 <= x < |rocks| && 0 <= y < |rocks[x]|
    ensures SameShape(r, rocks)
    ensures forall i, j :: 0 <= i < |rocks| && 0 <= j < |rocks[i]| ==>
              r[i][j] == if (i, j) == (x, y) && btn == MouseButtonLeft then true
                         else if (i, j) == (x, y) && btn == MouseButtonRight then false
                         else rocks[i][j]
  {
    if btn == MouseButtonLeft then SetAt(rocks, x, y, true)
    else if btn == MouseButtonRight then SetAt(rocks, x, y, false)
    else rocks
  }

  /** A left click followed by a right click at the same cell leaves it clear
      and every other cell as it was. */
  lemma LeftThenRightClears(rocks: seq<seq<bool>>, x: int, y: int)
    requires 0 <= x < |rocks| && 0 <= y < |rocks[x]|
    ensures Clicked(Clicked(rocks, MouseButtonLeft, x, y), MouseButtonRight, x, y) == SetAt(rocks, x, y, false)
  {
    var placed := Clicked(rocks, MouseButtonLeft, x, y);
    assert placed == SetAt(rocks, x, y, true);
    assert placed[x][y := false] == rocks[x][y := false];
  }

  // ---------------------------------------------------------------------------
  // The board

  class HumidityBoard {
    var initValues: Grid
    var values: Grid
    var Rocks: seq<seq<bool>>
    var Rain: seq<seq<bool>>
    var hvrX: int
    var hvrY: int

    /** The zero board, `&HumidityBoard{}`. */
    constructor ()
      ensures initValues == [] && values == [] && Rocks == [] && Rain == []
      ensures hvrX == 0 && hvrY == 0
    {
      initValues, values := [], [];
      Rocks, Rain := [], [];
      hvrX, hvrY := 0, 0;
    }

    /** The number of rows and the length of row 0; every row's length when
        the grid is rectangular. */
    function Size(): (dims: (nat, nat))
      reads this
      requires |values| > 0
      ensures dims.0 == |values| && dims.1 == |values[0]|
      ensures Rectangular(values) ==> IsMatrix(values, dims.0, dims.1)
    {
      (|values|, |values[0]|)
    }

    /** The body of the update loop for a cell that is not skipped: pick the
        four neighbours, with the edge cell past each border, and take the
        capped weighted mean. */
    static method UpdatedHumidity(vals: Grid, x: int, y: int) returns (r: real)
      requires Rectangular(vals) && Permeable(vals)
      requires 0 <= x < |vals| && 0 <= y < |vals[x]|
      ensures (NeighbourFacts(vals, x, y);
               r == NewHumidity(vals[x][y], Left(vals, x, y), Right(vals, x, y), Up(vals, x, y), Down(vals, x, y)))
    {
      var v0 := vals[x][y];
      var v1, v2, v3, v4 := Edge, Edge, Edge, Edge;
      if x > 0 {
        v1 := vals[x - 1][y];
      }
      if x < |vals| - 1 {
        v2 := vals[x + 1][y];
      }
      if y > 0 {
        v3 := vals[x][y - 1];
      }
      if y < |vals[0]| - 1 {
        v4 := vals[x][y + 1];
      }
      NeighbourFacts(vals, x, y);
      r := WeightedMean(v0, v1, v2, v3, v4);
      if r > MaxHumidity {
        r := MaxHumidity;
      }
    }

    /** One tick, written into a fresh grid and swapped in at the end. */
    method Update() returns (err: Outcome)
      requires Tickable(values, Rain)
      modifies this`values
      ensures values == Step(old(values), Rain)
      ensures err == Pass
    {
      var vals, rain := values, Rain;
      ghost var want := Step(vals, rain);
      var m0: Grid := [];
      for x := 0 to |vals|
        invariant |m0| == x
        invariant forall i :: 0 <= i < x ==> m0[i] == want[i]
      {
        m0 := m0 + [[]];
        for y := 0 to |vals[x]|
          invariant |m0| == x + 1
          invariant forall i :: 0 <= i < x ==> m0[i] == want[i]
          invariant m0[x] == want[x][..y]
        {
          var v0 := vals[x][y];
          assert want[x][y] == StepCell(vals, rain, x, y);
          m0 := m0[x := m0[x] + [v0]];
          if rain[x][y] || v0.k >= SkipThreshold {
            assert m0[x] == want[x][..y + 1];
            continue;
          }
          var r := UpdatedHumidity(vals, x, y);
          m0 := m0[x := m0[x][y := Cell(r, v0.k)]];
          assert m0[x] == want[x][..y + 1];
        }
        assert m0[x] == want[x];
      }
      values := m0;
      err := Pass;
    }

    method Setup(init: Grid)
      modifies this`initValues, this`values
      ensures initValues == init && values == init
    {
      initValues := init;
      values := init;
    }

    /** Restores the grid given to Setup; the masks are left as they are. */
    method Reset() returns (err: Outcome)
      modifies this`values
      ensures values == initValues
      ensures err == Pass
    {
      values := initValues;
      err := Pass;
    }

    method GetState() returns (state: Grid)
      ensures state == values
    {
      state := values;
    }

    /** Sets (left button) or clears (right button) the rock mask under the
        hover cursor; the cursor must be on the mask for those two buttons. */
    method Click(btn: MouseButton)
      requires btn == MouseButtonLeft || btn == MouseButtonRight ==>
                 0 <= hvrX < |Rocks| && 0 <= hvrY < |Rocks[hvrX]|
      modifies this`Rocks
      ensures Rocks == Clicked(old(Rocks), btn, hvrX, hvrY)
    {
      if btn == MouseButtonLeft {
        Rocks := SetAt(Rocks, hvrX, hvrY, true);
      } else if btn == MouseButtonRight {
        Rocks := SetAt(Rocks, hvrX, hvrY, false);
      }
    }

    method Hover(x: int, y: int)
      modifies this`hvrX, this`hvrY
      ensures hvrX == x && hvrY == y
    {
      hvrX := x;
      hvrY := y;
    }

    /** The frame Draw paints: one colour per cell, at the cell's coordinates. */
    method Draw() returns (frame: seq<seq<Color>>)
      requires Covers(Rocks, values)
      ensures SameShape(frame, values)
      ensures forall x, y :: 0 <= x < |values| && 0 <= y < |values[x]| ==>
                frame[x][y] == CellColor(values[x][y], Rocks[x][y], x == hvrX && y == hvrY)
    {
      frame := [];
      for x := 0 to |values|
        invariant |frame| == x
        invariant forall i :: 0 <= i < x ==> |frame[i]| == |values[i]|
        invariant forall i, j :: 0 <= i < x && 0 <= j < |values[i]| ==>
                    frame[i][j] == CellColor(values[i][j], Rocks[i][j], i == hvrX && j == hvrY)
      {
        var row: seq<Color> := [];
        for y := 0 to |values[x]|
          invariant |row| == y
          invariant forall j :: 0 <= j < y ==>
                      row[j] == CellColor(values[x][j], Rocks[x][j], x == hvrX && j == hvrY)
        {
          row := row + [CellColor(values[x][y], Rocks[x][y], x == hvrX && y == hvrY)];
        }
        frame := frame + [row];
      }
    }
  }

  /** A level's life on the board: Setup with a grid, any number of ticks,
      then Reset gives back the grid Setup was given; the masks and the cursor
      are as they were. */
  method TicksThenReset(b: HumidityBoard, init: Grid, n: nat) returns (ticked: Grid)
    requires Tickable(init, b.Rain)
    modifies b
    ensures ticked == Iterate(init, old(b.Rain), n)
    ensures b.values == init && b.initValues == init
    ensures b.Rocks == old(b.Rocks) && b.Rain == old(b.Rain)
    ensures b.hvrX == old(b.hvrX) && b.hvrY == old(b.hvrY)
  {
    b.Setup(init);
    for i := 0 to n
      invariant b.initValues == init && b.Rain == old(b.Rain) && b.Rocks == old(b.Rocks)
      invariant b.hvrX == old(b.hvrX) && b.hvrY == old(b.hvrY)
      invariant Tickable(b.values, b.Rain)
      invariant Iterate(init, b.Rain, n) == Iterate(b.values, b.Rain, n - i)
    {
      var _ := b.Update();
    }
    ticked := b.values;
    var _ := b.Reset();
  }
}
