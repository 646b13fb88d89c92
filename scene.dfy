/** The two grid builders of internal/scene.go. They read a level's tile codes
    from a flat, row-major array 16 tiles wide: cell [i][j] of a size x size
    grid is the tile at column i, row j, whatever `size` is. */
module Scene {
  import opened Common
  import opened Matrix
  import opened Humidity

  /** The row width the builders assume for the tile array. */
  const Stride: int := 16

  /** The index of the tile code for cell [i][j] of a built grid: column i
      of row j. Within a row of the array it is decoded back to (i, j). */
  function TileIndex(i: int, j: int): (n: int)
    ensures 0 <= i < Stride && 0 <= j ==> 0 <= n && n / Stride == j && n % Stride == i
  {
    j * Stride + i
  }

  /** Every index a builder reads for a size x size grid lies in `m`. */
  predicate CoversTiles(size: int, m: seq<int>)
    ensures CoversTiles(size, m) ==>
              forall i, j :: 0 <= i < size && 0 <= j < size ==> 0 <= TileIndex(i, j) < |m|
  {
    size <= 0 || |m| > TileIndex(size - 1, size - 1)
  }

  /** The tile codes of the classification. */
  const Air: int := 1
  const Rock: int := 6
  const Cloud: int := 7

  /** math.Pow(5, c) for an integer exponent. */
  function Pow5(c: int): (p: real)
    ensures p > 0.0
    ensures c >= 0 ==> p >= 1.0
    decreases if c < 0 then -c else c
  {
    if c == 0 then 1.0
    else if c > 0 then 5.0 * Pow5(c - 1)
    else Pow5(c + 1) / 5.0
  }

  /** Denser tile classes are more impermeable: 5^c grows with c. */
  lemma {:induction false} Pow5Increasing(a: int, b: int)
    requires a < b
    ensures Pow5(a) < Pow5(b)
    decreases b - a
  {
    if b == a + 1 {
      if a >= 0 {
        assert Pow5(b) == 5.0 * Pow5(a);
      } else {
        assert Pow5(a) == Pow5(b) / 5.0;
      }
    } else {
      Pow5Increasing(a, b - 1);
      Pow5Increasing(b - 1, b);
    }
  }

  /** The (humidity, impermeability) cell a tile code gives: air (0, 1), a
      cloud (1023, 1), rock (0, MaxFloat32), any other code c (0, 5^c). */
  function TileCell(code: int): (v: Cell)
    ensures v.k > 0.0
    ensures code >= 0 ==> v.k >= 1.0
    ensures v.h == if code == Cloud then MaxHumidity else 0.0
  {
    if code == Air then Cell(0.0, 1.0)
    else if code == Cloud then Cell(MaxHumidity, 1.0)
    else if code == Rock then Cell(0.0, MaxFloat32)
    else Cell(0.0, Pow5(code))
  }

  /** Among the codes 0..7, only rock reaches the skip threshold of a tick;
      the soils 2..5 are ever more impermeable, and all above air. */
  lemma TileImpermeability(code: int)
    requires 0 <= code <= 7
    ensures TileCell(code).k >= SkipThreshold <==> code == Rock
    ensures 2 <= code <= 5 ==> TileCell(Air).k < TileCell(code).k
    ensures 2 <= code < 5 ==> TileCell(code).k < TileCell(code + 1).k
  {
    if code != Rock && code != Cloud && code != Air {
      Pow5Increasing(code, 8);
      assert Pow5(8) == 390625.0;
    }
    if 2 <= code < 5 {
      Pow5Increasing(code, code + 1);
    }
    if 2 <= code <= 5 {
      Pow5Increasing(0, code);
    }
  }

  /** The soil grids of a level: the humidity grid, the rock mask and the rain
      mask, each size x size. */
  method MakeSoilGrid(size: int, m: seq<int>) returns (hum: Grid, rocks: seq<seq<bool>>, rain: seq<seq<bool>>)
    requires CoversTiles(size, m)
    ensures IsMatrix(hum, Count(size), Count(size))
    ensures IsMatrix(rocks, Count(size), Count(size)) && IsMatrix(rain, Count(size), Count(size))
    ensures forall i, j :: 0 <= i < Count(size) && 0 <= j < Count(size) ==>
              hum[i][j] == TileCell(m[TileIndex(i, j)]) &&
              rocks[i][j] == (m[TileIndex(i, j)] == Rock) &&
              rain[i][j] == (m[TileIndex(i, j)] == Cloud)
  {
    hum := MakeMatrix(size, Cell(0.0, 1.0));
    rocks := MakeMatrixBool(size);
    rain := MakeMatrixBool(size);
    var n := Count(size);
    for i := 0 to |hum|
      invariant IsMatrix(hum, n, n) && IsMatrix(rocks, n, n) && IsMatrix(rain, n, n)
      invariant forall a, b :: 0 <= a < n && 0 <= b < n ==>
                  if a < i then Classified(hum, rocks, rain, m, a, b) else Unclassified(hum, rocks, rain, a, b)
    {
      for j := 0 to |hum[i]|
        invariant IsMatrix(hum, n, n) && IsMatrix(rocks, n, n) && IsMatrix(rain, n, n)
        invariant forall a, b :: 0 <= a < n && 0 <= b < n ==>
                    if a < i || (a == i && b < j) then Classified(hum, rocks, rain, m, a, b)
                    else Unclassified(hum, rocks, rain, a, b)
      {
        ghost var (hum0, rocks0, rain0) := (hum, rocks, rain);
        assert Unclassified(hum, rocks, rain, i, j);
        var cell := m[TileIndex(i, j)];
        var v, isRock, isRain := hum[i][j], rocks[i][j], rain[i][j];
        if cell == Air {
          // air: the default cell stays
        } else if cell == Cloud {
          v, isRain := v.(h := MaxHumidity), true;
        } else if cell == Rock {
          v, isRock := v.(k := MaxFloat32), true;
        } else {
          v := v.(k := Pow5(cell));
        }
        hum := hum[i := hum[i][j := v]];
        rocks := rocks[i := rocks[i][j := isRock]];
        rain := rain[i := rain[i][j := isRain]];
        assert Classified(hum, rocks, rain, m, i, j);
        forall a, b | 0 <= a < n && 0 <= b < n
          ensures if a < i || (a == i && b < j + 1) then Classified(hum, rocks, rain, m, a, b)
                  else Unclassified(hum, rocks, rain, a, b)
        {
          if (a, b) != (i, j) {
            assert hum[a][b] == hum0[a][b] && rocks[a][b] == rocks0[a][b] && rain[a][b] == rain0[a][b];
            if a < i || (a == i && b < j) {
              assert Classified(hum0, rocks0, rain0, m, a, b);
            } else {
              assert Unclassified(hum0, rocks0, rain0, a, b);
            }
          }
        }
      }
    }
    forall a, b | 0 <= a < n && 0 <= b < n
      ensures hum[a][b] == TileCell(m[TileIndex(a, b)])
      ensures rocks[a][b] == (m[TileIndex(a, b)] == Rock) && rain[a][b] == (m[TileIndex(a, b)] == Cloud)
    {
      assert Classified(hum, rocks, rain, m, a, b);
    }
  }

  /** Cell [a][b] of the three grids holds what its tile code gives. */
  predicate Classified(hum: Grid, rocks: seq<seq<bool>>, rain: seq<seq<bool>>, m: seq<int>, a: int, b: int)
    requires 0 <= a < |hum| && 0 <= b < |hum[a]| && Covers(rocks, hum) && Covers(rain, hum)
    requires 0 <= TileIndex(a, b) < |m|
  {
    hum[a][b] == TileCell(m[TileIndex(a, b)]) &&
    rocks[a][b] == (m[TileIndex(a, b)] == Rock) &&
    rain[a][b] == (m[TileIndex(a, b)] == Cloud)
  }

  /** Cell [a][b] of the three grids still holds its default: air, no rock,
      no rain. */
  predicate Unclassified(hum: Grid, rocks: seq<seq<bool>>, rain: seq<seq<bool>>, a: int, b: int)
    requires 0 <= a < |hum| && 0 <= b < |hum[a]| && Covers(rocks, hum) && Covers(rain, hum)
  {
    hum[a][b] == Cell(0.0, 1.0) && !rocks[a][b] && !rain[a][b]
  }

  /** What the builder hands to the board is fit to be ticked: rectangular,
      impermeabilities at least 1 for non-negative codes, humidities in
      [0, 1023], no cell both rock and rain, and every rain cell at 1023. */
  lemma SoilGridTickable(size: int, m: seq<int>, hum: Grid, rocks: seq<seq<bool>>, rain: seq<seq<bool>>)
    requires CoversTiles(size, m)
    requires IsMatrix(hum, Count(size), Count(size))
    requires IsMatrix(rocks, Count(size), Count(size)) && IsMatrix(rain, Count(size), Count(size))
    requires forall i, j :: 0 <= i < Count(size) && 0 <= j < Count(size) ==>
               hum[i][j] == TileCell(m[TileIndex(i, j)]) &&
               rocks[i][j] == (m[TileIndex(i, j)] == Rock) &&
               rain[i][j] == (m[TileIndex(i, j)] == Cloud)
    ensures Tickable(hum, rain) && HumidityInRange(hum)
    ensures forall i, j :: 0 <= i < |hum| && 0 <= j < |hum[i]| ==> !(rocks[i][j] && rain[i][j])
    ensures forall i, j :: 0 <= i < |hum| && 0 <= j < |hum[i]| && rain[i][j] ==>
              hum[i][j] == Cell(MaxHumidity, 1.0)
    ensures forall i, j :: 0 <= i < |hum| && 0 <= j < |hum[i]| && 0 <= m[TileIndex(i, j)] ==>
              hum[i][j].k >= 1.0
  {
    if size > 0 {
      assert |hum[0]| == Count(size);
    }
  }

  /** The static preview colour of a tile code: one fixed opaque colour per
      soil, rock and cloud code 2..7, opaque white for air and every other
      code. */
  function TileColor(code: int): (c: Color)
    ensures c.RGBA? && c.a == 255
    ensures !(2 <= code <= 7) ==> c == White
  {
    if code == 7 then RGBA(0x12, 0x4e, 0x89, 0xff)       // cloud
    else if code == 6 then RGBA(0x5A, 0x69, 0x88, 0xff)  // rock
    else if code == 5 then RGBA(0xBE, 0x4A, 0x2F, 0xff)  // clay
    else if code == 4 then RGBA(0xEA, 0xD4, 0xAA, 0xff)  // sand
    else if code == 3 then RGBA(0x55, 0x38, 0x29, 0xff)  // hard soil
    else if code == 2 then RGBA(0x27, 0x1F, 0x1E, 0xff)  // loose soil
    else White
  }

  /** The seven known codes get seven different colours. */
  lemma TileColorsDistinct(a: int, b: int)
    requires 1 <= a < b <= 7
    ensures TileColor(a) != TileColor(b)
  {
  }

  /** The preview grid of a level, size x size; `make` refuses a negative
      size. */
  method MakeColorGrid(size: int, m: seq<int>) returns (clrs: seq<seq<Color>>)
    requires size >= 0
    requires CoversTiles(size, m)
    ensures IsMatrix(clrs, size, size)
    ensures forall i, j :: 0 <= i < size && 0 <= j < size ==> clrs[i][j] == TileColor(m[TileIndex(i, j)])
  {
    clrs := seq(size, _ => []);
    for i := 0 to |clrs|
      invariant |clrs| == size
      invariant forall a :: 0 <= a < i ==> |clrs[a]| == size
      invariant forall a, b :: 0 <= a < i && 0 <= b < size ==> clrs[a][b] == TileColor(m[TileIndex(a, b)])
    {
      // make's nil entries; every one is overwritten below
      clrs := clrs[i := seq(size, _ => White)];
      for j := 0 to |clrs[i]|
        invariant |clrs| == size && |clrs[i]| == size
        invariant forall a :: 0 <= a < i ==> |clrs[a]| == size
        invariant forall a, b :: 0 <= a < i && 0 <= b < size ==> clrs[a][b] == TileColor(m[TileIndex(a, b)])
        invariant forall b :: 0 <= b < j ==> clrs[i][b] == TileColor(m[TileIndex(i, b)])
      {
        var clr := TileColor(m[TileIndex(i, j)]);
        clrs := clrs[i := clrs[i][j := clr]];
      }
    }
  }
}
