/** The generic matrix helpers of util/matrix.go. A matrix is a sequence of
    rows, as the Go code's slices of slices; x indexes the row, y the entry. */
module Matrix {
  import opened Common

  /** `m` has exactly `w` rows and every row exactly `h` entries. */
  predicate IsMatrix<V>(m: seq<seq<V>>, w: nat, h: nat) {
    |m| == w && forall x :: 0 <= x < w ==> |m[x]| == h
  }

  /** Every row of `m` has at least `n` entries, so reading columns below `n`
      of every row stays in range. */
  predicate RowsAtLeast<V>(m: seq<seq<V>>, n: nat) {
    forall x :: 0 <= x < |m| ==> |m[x]| >= n
  }

  /** The size test the Go helpers make: the same number of rows, and row 0
      of the same length. Only row 0 of each is compared. */
  predicate SameSize<V, W>(a: seq<seq<V>>, b: seq<seq<W>>)
    requires |a| > 0
  {
    |a| == |b| && |a[0]| == |b[0]|
  }

  /** How many times `for i := 0; i < n; i++` runs. */
  function Count(n: int): nat {
    if n < 0 then 0 else n
  }

  /** The matrix of `w` rows of `h` copies of `value`; a negative dimension
      gives no rows (or empty rows), as a loop bounded by it never runs. */
  function Filled<V>(w: int, h: int, value: V): (m: seq<seq<V>>)
    ensures IsMatrix(m, Count(w), Count(h))
    ensures forall x, y :: 0 <= x < |m| && 0 <= y < |m[x]| ==> m[x][y] == value
  {
    seq(Count(w), _ => seq(Count(h), _ => value))
  }

  /** Row `x` of `dst` after the mask has been applied to its first `ly`
      entries. */
  function MaskedRow<V>(row: seq<V>, maskRow: seq<bool>, ly: nat, value: V): (r: seq<V>)
    requires |maskRow| >= ly
    ensures |r| == |row|
    ensures forall y :: 0 <= y < ly && y < |row| && maskRow[y] ==> r[y] == value
    ensures forall y :: 0 <= y < |row| && !(y < ly && maskRow[y]) ==> r[y] == row[y]
  {
    seq(|row|, y requires 0 <= y < |row| => if y < ly && maskRow[y] then value else row[y])
  }

  /** `dst` with every entry in the first |dst[0]| columns whose mask entry is
      set replaced by `value`. */
  function Masked<V>(dst: seq<seq<V>>, mask: seq<seq<bool>>, value: V): (r: seq<seq<V>>)
    requires |dst| > 0 && |mask| == |dst| && RowsAtLeast(mask, |dst[0]|)
    ensures |r| == |dst| && forall x :: 0 <= x < |r| ==> |r[x]| == |dst[x]|
    ensures forall x, y :: 0 <= x < |dst| && 0 <= y < |dst[0]| && y < |dst[x]| ==>
              r[x][y] == if mask[x][y] then value else dst[x][y]
    ensures forall x, y :: 0 <= x < |dst| && |dst[0]| <= y < |dst[x]| ==> r[x][y] == dst[x][y]
  {
    seq(|dst|, x requires 0 <= x < |dst| => MaskedRow(dst[x], mask[x], |dst[0]|, value))
  }

  /** Applying the same mask with the same value a second time changes nothing. */
  lemma {:induction false} MaskedIdempotent<V>(dst: seq<seq<V>>, mask: seq<seq<bool>>, value: V)
    requires |dst| > 0 && |mask| == |dst| && RowsAtLeast(mask, |dst[0]|)
    ensures |Masked(dst, mask, value)[0]| == |dst[0]|
    ensures Masked(Masked(dst, mask, value), mask, value) == Masked(dst, mask, value)
  {
    var once := Masked(dst, mask, value);
    assert |once[0]| == |dst[0]|;
    var twice := Masked(once, mask, value);
    assert |twice| == |once|;
    forall x | 0 <= x < |once|
      ensures twice[x] == once[x]
    {
      assert |twice[x]| == |once[x]|;
      forall y | 0 <= y < |once[x]|
        ensures twice[x][y] == once[x][y]
      {
      }
    }
  }

  method MakeMatrixWH<V>(width: int, height: int, value: V) returns (m: seq<seq<V>>)
    ensures m == Filled(width, height, value)
  {
    m := [];
    var x := 0;
    while x < width
      invariant 0 <= x == |m| && x <= Count(width)
      invariant forall i :: 0 <= i < x ==> m[i] == Filled(width, height, value)[i]
    {
      var row := [];
      var y := 0;
      while y < height
        invariant 0 <= y == |row| && y <= Count(height)
        invariant forall j :: 0 <= j < y ==> row[j] == value
      {
        row := row + [value];
        y := y + 1;
      }
      m := m + [row];
      x := x + 1;
    }
  }

  method MakeMatrix<V>(size: int, value: V) returns (m: seq<seq<V>>)
    ensures m == Filled(size, size, value)
  {
    m := [];
    var x := 0;
    while x < size
      invariant 0 <= x == |m| && x <= Count(size)
      invariant forall i :: 0 <= i < x ==> m[i] == Filled(size, size, value)[i]
    {
      var row := [];
      var y := 0;
      while y < size
        invariant 0 <= y == |row| && y <= Count(size)
        invariant forall j :: 0 <= j < y ==> row[j] == value
      {
        row := row + [value];
        y := y + 1;
      }
      m := m + [row];
      x := x + 1;
    }
  }

  method MakeMatrixBool(size: int) returns (m: seq<seq<bool>>)
    ensures m == Filled(size, size, false)
  {
    m := [];
    var x := 0;
    while x < size
      invariant 0 <= x == |m| && x <= Count(size)
      invariant forall i :: 0 <= i < x ==> m[i] == Filled(size, size, false)[i]
    {
      var row := [];
      var y := 0;
      while y < size
        invariant 0 <= y == |row| && y <= Count(size)
        invariant forall j :: 0 <= j < y ==> !row[j]
      {
        row := row + [false];
        y := y + 1;
      }
      m := m + [row];
      x := x + 1;
    }
  }

  /** Pairs two matrices entry by entry into cells (component 0 from m0,
      component 1 from m1). The size test reads row 0 of both, so m0 must not
      be empty; the copy loop reads |m0[0]| entries of every row. */
  method Merge2Matrixes(m0: seq<seq<real>>, m1: seq<seq<real>>) returns (r: Result<seq<seq<Cell>>>)
    requires |m0| > 0
    requires SameSize(m0, m1) ==> RowsAtLeast(m0, |m0[0]|) && RowsAtLeast(m1, |m0[0]|)
    ensures r.Err? <==> !SameSize(m0, m1)
    ensures r.Err? ==> r.message == "Must have matrixes of the same size"
    ensures r.Ok? ==> IsMatrix(r.value, |m0|, |m0[0]|)
    ensures r.Ok? ==> forall x, y :: 0 <= x < |m0| && 0 <= y < |m0[0]| ==>
                        r.value[x][y] == Cell(m0[x][y], m1[x][y])
  {
    var lx, ly := |m0|, |m0[0]|;
    if lx != |m1| || ly != |m1[0]| {
      return Err("Must have matrixes of the same size");
    }
    var res: seq<seq<Cell>> := [];
    var x := 0;
    while x < lx
      invariant 0 <= x <= lx && |res| == x
      invariant IsMatrix(res, x, ly)
      invariant forall i, j :: 0 <= i < x && 0 <= j < ly ==> res[i][j] == Cell(m0[i][j], m1[i][j])
    {
      var row: seq<Cell> := [];
      var y := 0;
      while y < ly
        invariant 0 <= y <= ly && |row| == y
        invariant forall j :: 0 <= j < y ==> row[j] == Cell(m0[x][j], m1[x][j])
      {
        row := row + [Cell(m0[x][y], m1[x][y])];
        y := y + 1;
      }
      res := res + [row];
      x := x + 1;
    }
    return Ok(res);
  }

  /** Sets to `value` every entry of `dst` whose mask entry is set, over the
      first |dst[0]| columns of every row. On a size mismatch `dst` comes back
      as it was, with an error. */
  method ApplyMaskOnMatrix<V>(dst: seq<seq<V>>, mask: seq<seq<bool>>, value: V)
    returns (r: seq<seq<V>>, err: Outcome)
    requires |dst| > 0
    requires SameSize(dst, mask) ==> RowsAtLeast(dst, |dst[0]|) && RowsAtLeast(mask, |dst[0]|)
    ensures err.Fail? <==> !SameSize(dst, mask)
    ensures err.Fail? ==> r == dst && err.message == "dst and mask must have the same size"
    ensures err.Pass? ==> r == Masked(dst, mask, value)
    ensures err.Pass? ==> |r| == |dst| && forall x :: 0 <= x < |r| ==> |r[x]| == |dst[x]|
    ensures err.Pass? ==> forall x, y :: 0 <= x < |dst| && 0 <= y < |dst[0]| ==>
                            r[x][y] == if mask[x][y] then value else dst[x][y]
  {
    var lx, ly := |dst|, |dst[0]|;
    if lx != |mask| || ly != |mask[0]| {
      return dst, Fail("dst and mask must have the same size");
    }
    r := dst;
    var x := 0;
    while x < lx
      invariant 0 <= x <= lx && |r| == lx
      invariant forall i :: 0 <= i < x ==> r[i] == MaskedRow(dst[i], mask[i], ly, value)
      invariant forall i :: x <= i < lx ==> r[i] == dst[i]
    {
      var y := 0;
      while y < ly
        invariant 0 <= y <= ly && |r| == lx && |r[x]| == |dst[x]|
        invariant forall i :: 0 <= i < x ==> r[i] == MaskedRow(dst[i], mask[i], ly, value)
        invariant forall i :: x < i < lx ==> r[i] == dst[i]
        invariant forall j :: 0 <= j < |dst[x]| ==>
                    r[x][j] == if j < y && mask[x][j] then value else dst[x][j]
      {
        if mask[x][y] {
          r := r[x := r[x][y := value]];
        }
        y := y + 1;
      }
      assert r[x] == MaskedRow(dst[x], mask[x], ly, value);
      x := x + 1;
    }
    err := Pass;
  }
}
