/**
 * The flat tile lattice over the body's surface and the brute-force,
 * boundary-inclusive disc query over it.
 */
module CoverageGrid {
  import opened Geometry

  /** The default body radius in kilometres. */
  const EarthRadiusKm: real := 6371.0

  /** The spacing numpy's `linspace` uses between consecutive samples. */
  function Gap(start: real, stop: real, num: nat): real
    requires num >= 2
  {
    (stop - start) / ((num - 1) as real)
  }

  /** Sample k of numpy's `linspace`: `start + k * gap`, or `start` when there are fewer than two samples. */
  function Sample(start: real, stop: real, num: nat, k: nat): real
  {
    if num < 2 then start else start + (k as real) * Gap(start, stop, num)
  }

  /**
   * numpy's `linspace(start, stop, num)`: `num` evenly spaced samples from
   * `start` to `stop` inclusive; a single sample is `start`, zero samples
   * are none.
   */
  function Linspace(start: real, stop: real, num: nat): (xs: seq<real>)
    ensures |xs| == num
    ensures num >= 1 ==> xs[0] == start
    ensures num >= 2 ==> xs[num - 1] == stop
  {
    var xs := seq(num, k requires 0 <= k => Sample(start, stop, num, k));
    assert num >= 2 ==> xs[num - 1] == stop by {
      if num >= 2 {
        GapSpan(start, stop, num);
      }
    }
    xs
  }

  lemma MulMono(a: real, b: real, g: real)
    requires a <= b && g >= 0.0
    ensures a * g <= b * g
  {
    assert b * g - a * g == (b - a) * g;
  }

  /** The gap spans the interval in `num - 1` steps, and is non-negative when the interval is. */
  lemma GapSpan(start: real, stop: real, num: nat)
    requires num >= 2
    ensures ((num - 1) as real) * Gap(start, stop, num) == stop - start
    ensures start <= stop ==> Gap(start, stop, num) >= 0.0
  {
  }

  /** Consecutive samples are a constant gap of (stop - start) / (num - 1) apart. */
  lemma LinspaceGap(start: real, stop: real, num: nat, i: nat)
    requires i + 1 < num
    ensures Linspace(start, stop, num)[i + 1] - Linspace(start, stop, num)[i] == Gap(start, stop, num)
  {
    var g := Gap(start, stop, num);
    assert ((i + 1) as real) * g == (i as real) * g + g;
    assert Sample(start, stop, num, i + 1) - Sample(start, stop, num, i) == g;
  }

  lemma AffineMono(start: real, g: real, a: real, b: real, c: real)
    requires g >= 0.0 && 0.0 <= a <= b <= c
    ensures start <= start + a * g <= start + b * g <= start + c * g
  {
    MulMono(0.0, a, g);
    MulMono(a, b, g);
    MulMono(b, c, g);
  }

  lemma SampleWithin(start: real, stop: real, num: nat, i: nat, j: nat)
    requires start <= stop
    requires i <= j < num
    ensures start <= Sample(start, stop, num, i) <= Sample(start, stop, num, j) <= stop
  {
    if num >= 2 {
      GapSpan(start, stop, num);
      AffineMono(start, Gap(start, stop, num), i as real, j as real, (num - 1) as real);
    }
  }

  /** With start <= stop every sample lies in [start, stop], and the samples never decrease. */
  lemma LinspaceWithin(start: real, stop: real, num: nat, i: nat, j: nat)
    requires start <= stop
    requires i <= j < num
    ensures start <= Linspace(start, stop, num)[i] <= Linspace(start, stop, num)[j] <= stop
  {
    SampleWithin(start, stop, num, i, j);
  }

  lemma MulSucc(a: nat, w: nat)
    ensures (a + 1) * w == a * w + w
  {
  }

  /**
   * `_generate_grid`: `height` rows of `width` tile centres; tile (row, col)
   * sits at (xs[col], ys[row]) for xs, ys sampled over [-radius, radius].
   */
  function GenerateGrid(width: nat, height: nat, radius: real): (g: seq<seq<Point>>)
    ensures |g| == height
    ensures forall row :: 0 <= row < height ==> |g[row]| == width
    ensures forall row, col :: 0 <= row < height && 0 <= col < width ==>
              g[row][col] == Point(Linspace(-radius, radius, width)[col], Linspace(-radius, radius, height)[row])
  {
    var xs := Linspace(-radius, radius, width);
    var ys := Linspace(-radius, radius, height);
    seq(height, row requires 0 <= row < height => seq(width, col requires 0 <= col < width => Point(xs[col], ys[row])))
  }

  /** For a non-negative radius every tile centre lies in the square [-radius, radius]². */
  lemma TilesInsideSquare(width: nat, height: nat, radius: real, row: nat, col: nat)
    requires radius >= 0.0
    requires row < height && col < width
    ensures -radius <= GenerateGrid(width, height, radius)[row][col].x <= radius
    ensures -radius <= GenerateGrid(width, height, radius)[row][col].y <= radius
  {
    LinspaceWithin(-radius, radius, width, col, col);
    LinspaceWithin(-radius, radius, height, row, row);
  }

  /** Row-major order on (row, col) pairs. */
  predicate Before(a: (int, int), b: (int, int))
  {
    a.0 < b.0 || (a.0 == b.0 && a.1 < b.1)
  }

  /** Every pair strictly precedes the pairs after it: ordered and free of duplicates. */
  predicate RowMajorSorted(s: seq<(int, int)>)
  {
    forall i, j :: 0 <= i < j < |s| ==> Before(s[i], s[j])
  }

  class EarthGrid {
    const width: nat
    const height: nat
    const radius: real
    const tiles: seq<seq<Point>>

    ghost predicate Valid()
    {
      tiles == GenerateGrid(width, height, radius)
    }

    constructor (width: nat, height: nat, earthRadiusKm: real := EarthRadiusKm)
      ensures Valid()
      ensures this.width == width && this.height == height && radius == earthRadiusKm
    {
      this.width := width;
      this.height := height;
      radius := earthRadiusKm;
      tiles := GenerateGrid(width, height, earthRadiusKm);
    }

    /** Whether tile (row, col) is within distance r of p. */
    predicate TileWithin(row: nat, col: nat, p: Point, r: real)
      requires Valid() && row < height && col < width
    {
      Within(tiles[row][col], p, r)
    }

    /** What the inner loop collects on `row` after its first `cols` columns. */
    function CoveredInRow(p: Point, r: real, row: nat, cols: nat): seq<(int, int)>
      requires Valid() && row < height && cols <= width
    {
      if cols == 0 then []
      else CoveredInRow(p, r, row, cols - 1)
           + (if TileWithin(row, cols - 1, p, r) then [(row as int, cols - 1)] else [])
    }

    /** What the outer loop has collected after its first `rows` rows. */
    function CoveredRows(p: Point, r: real, rows: nat): seq<(int, int)>
      requires Valid() && rows <= height
    {
      if rows == 0 then []
      else CoveredRows(p, r, rows - 1) + CoveredInRow(p, r, rows - 1, width)
    }

    /** The entries of one row: in that row, before column `cols`, in ascending column order. */
    lemma {:induction false} CoveredInRowFacts(p: Point, r: real, row: nat, cols: nat)
      requires Valid() && row < height && cols <= width
      ensures |CoveredInRow(p, r, row, cols)| <= cols
      ensures forall k :: 0 <= k < |CoveredInRow(p, r, row, cols)| ==>
                CoveredInRow(p, r, row, cols)[k].0 == row && 0 <= CoveredInRow(p, r, row, cols)[k].1 < cols
      ensures RowMajorSorted(CoveredInRow(p, r, row, cols))
      ensures forall col :: (row, col) in CoveredInRow(p, r, row, cols) <==>
                0 <= col < cols && TileWithin(row, col, p, r)
    {
      if cols > 0 {
        CoveredInRowFacts(p, r, row, cols - 1);
      }
    }

    /** The first `rows` rows yield at most rows·width entries. */
    lemma {:induction false} CoveredRowsLength(p: Point, r: real, rows: nat)
      requires Valid() && rows <= height
      ensures |CoveredRows(p, r, rows)| <= rows * width
    {
      if rows > 0 {
        CoveredRowsLength(p, r, rows - 1);
        CoveredInRowFacts(p, r, rows - 1, width);
        MulSucc(rows - 1, width);
        assert |CoveredRows(p, r, rows)|
               == |CoveredRows(p, r, rows - 1)| + |CoveredInRow(p, r, rows - 1, width)|;
      }
    }

    /** Every entry of the first `rows` rows is an index of the lattice above row `rows`. */
    lemma {:induction false} CoveredRowsInRange(p: Point, r: real, rows: nat)
      requires Valid() && rows <= height
      ensures forall k :: 0 <= k < |CoveredRows(p, r, rows)| ==>
                0 <= CoveredRows(p, r, rows)[k].0 < rows && 0 <= CoveredRows(p, r, rows)[k].1 < width
    {
      if rows > 0 {
        CoveredRowsInRange(p, r, rows - 1);
        CoveredInRowFacts(p, r, rows - 1, width);
        var a, b := CoveredRows(p, r, rows - 1), CoveredInRow(p, r, rows - 1, width);
        var ab: seq<(int, int)> := a + b;
        forall k | 0 <= k < |ab| ensures 0 <= ab[k].0 < rows && 0 <= ab[k].1 < width {
          if k < |a| {
            assert ab[k] == a[k];
          } else {
            assert ab[k] == b[k - |a|];
          }
        }
      }
    }

    /** The entries of the first `rows` rows are in row-major order, hence free of duplicates. */
    lemma {:induction false} CoveredRowsSorted(p: Point, r: real, rows: nat)
      requires Valid() && rows <= height
      ensures RowMajorSorted(CoveredRows(p, r, rows))
    {
      if rows > 0 {
        CoveredRowsSorted(p, r, rows - 1);
        CoveredRowsInRange(p, r, rows - 1);
        CoveredInRowFacts(p, r, rows - 1, width);
        var a, b := CoveredRows(p, r, rows - 1), CoveredInRow(p, r, rows - 1, width);
        forall i, j | 0 <= i < j < |a + b| ensures Before((a + b)[i], (a + b)[j]) {
          if j < |a| {
          } else if i < |a| {
            assert (a + b)[i] == a[i] && (a + b)[j] == b[j - |a|];
            assert a[i].0 < rows - 1 && b[j - |a|].0 == rows - 1;
          } else {
            assert (a + b)[i] == b[i - |a|] && (a + b)[j] == b[j - |a|];
          }
        }
      }
    }

    /** A tile is among the entries of the first `rows` rows exactly when it lies in those rows and within the disc. */
    lemma {:induction false} CoveredRowsMembership(p: Point, r: real, rows: nat)
      requires Valid() && rows <= height
      ensures forall row, col :: (row, col) in CoveredRows(p, r, rows) <==>
                0 <= row < rows && 0 <= col < width && TileWithin(row, col, p, r)
    {
      if rows > 0 {
        CoveredRowsMembership(p, r, rows - 1);
        CoveredInRowFacts(p, r, rows - 1, width);
      }
    }

    /** The whole scan: everything the query promises, about its specification. */
    lemma CoveredRowsAll(p: Point, r: real)
      requires Valid()
      ensures forall row, col :: (row, col) in CoveredRows(p, r, height) <==>
                0 <= row < height && 0 <= col < width && Within(tiles[row][col], p, r)
      ensures forall k :: 0 <= k < |CoveredRows(p, r, height)| ==>
                0 <= CoveredRows(p, r, height)[k].0 < height && 0 <= CoveredRows(p, r, height)[k].1 < width &&
                Within(tiles[CoveredRows(p, r, height)[k].0][CoveredRows(p, r, height)[k].1], p, r)
      ensures RowMajorSorted(CoveredRows(p, r, height))
      ensures |CoveredRows(p, r, height)| <= width * height
      ensures r < 0.0 ==> CoveredRows(p, r, height) == []
    {
      var c := CoveredRows(p, r, height);
      CoveredRowsLength(p, r, height);
      CoveredRowsInRange(p, r, height);
      CoveredRowsSorted(p, r, height);
      CoveredRowsMembership(p, r, height);
      assert height * width == width * height;
      forall k | 0 <= k < |c|
        ensures Within(tiles[c[k].0][c[k].1], p, r)
      {
        assert (c[k].0, c[k].1) in c;
      }
      if |c| > 0 {
        assert Within(tiles[c[0].0][c[0].1], p, r);
      }
    }

    /**
     * `covered_tiles`: the (row, col) indices, in row-major order, of every
     * tile whose centre lies within distance r of p (boundary included).
     */
    method CoveredTiles(satPos: Point, coverageRadiusKm: real) returns (covered: seq<(int, int)>)
      requires Valid()
      ensures covered == CoveredRows(satPos, coverageRadiusKm, height)
      ensures forall row, col :: (row, col) in covered <==>
                0 <= row < height && 0 <= col < width && Within(tiles[row][col], satPos, coverageRadiusKm)
      ensures forall k :: 0 <= k < |covered| ==>
                0 <= covered[k].0 < height && 0 <= covered[k].1 < width &&
                Within(tiles[covered[k].0][covered[k].1], satPos, coverageRadiusKm)
      ensures RowMajorSorted(covered)
      ensures |covered| <= width * height
      ensures coverageRadiusKm < 0.0 ==> covered == []
    {
      covered := [];
      var row := 0;
      while row < height
        invariant row <= height
        invariant covered == CoveredRows(satPos, coverageRadiusKm, row)
      {
        var col := 0;
        while col < width
          invariant col <= width
          invariant covered == CoveredRows(satPos, coverageRadiusKm, row)
                               + CoveredInRow(satPos, coverageRadiusKm, row, col)
        {
          var t := tiles[row][col];
          if Within(t, satPos, coverageRadiusKm) {
            covered := covered + [(row, col)];
          }
          col := col + 1;
        }
        row := row + 1;
      }
      CoveredRowsAll(satPos, coverageRadiusKm);
    }

    /** `all_tile_positions`: the stored lattice, as built. */
    function AllTilePositions(): (t: seq<seq<Point>>)
      requires Valid()
      ensures |t| == height && forall row :: 0 <= row < height ==> |t[row]| == width
      ensures t == GenerateGrid(width, height, radius)
    {
      tiles
    }

    /** `grid_shape`: (rows, columns) of the stored lattice. */
    function GridShape(): (s: (nat, nat))
      requires Valid()
      ensures s.0 == |tiles| && forall row :: 0 <= row < s.0 ==> |tiles[row]| == s.1
      ensures s.0 == height && s.1 == width
    {
      (height, width)
    }

    /** All tile indices of the lattice. */
    function AllIndices(): set<(int, int)>
    {
      set row: int, col: int | 0 <= row < height && 0 <= col < width :: (row, col)
    }

    /** The tiles within distance of the centre of at least one disc in `discs`. */
    function CoveredBy(discs: seq<(Point, real)>): (c: set<(int, int)>)
      requires Valid()
      ensures c <= AllIndices()
    {
      set row: int, col: int | 0 <= row < height && 0 <= col < width &&
        exists k :: 0 <= k < |discs| && Within(tiles[row][col], discs[k].0, discs[k].1) :: (row, col)
    }
  }

  /** The first `rows` rows of a lattice `width` wide. */
  function IndicesBelow(rows: nat, width: nat): set<(int, int)>
  {
    set row: int, col: int | 0 <= row < rows && 0 <= col < width :: (row, col)
  }

  /** The first `cols` indices of one row. */
  function RowIndices(row: int, cols: nat): set<(int, int)>
  {
    set col: int | 0 <= col < cols :: (row, col)
  }

  lemma {:induction false} RowIndicesCount(row: int, cols: nat)
    ensures |RowIndices(row, cols)| == cols
  {
    if cols > 0 {
      RowIndicesCount(row, cols - 1);
      assert RowIndices(row, cols) == RowIndices(row, cols - 1) + {(row, cols - 1)};
    }
  }

  /** A `rows × width` lattice has exactly rows·width tile indices. */
  lemma {:induction false} IndicesBelowCount(rows: nat, width: nat)
    ensures |IndicesBelow(rows, width)| == rows * width
  {
    if rows > 0 {
      IndicesBelowCount(rows - 1, width);
      RowIndicesCount(rows - 1, width);
      assert IndicesBelow(rows, width) == IndicesBelow(rows - 1, width) + RowIndices(rows - 1, width);
      assert IndicesBelow(rows - 1, width) !! RowIndices(rows - 1, width);
      MulSucc(rows - 1, width);
    }
  }

  /** However many discs there are, they cover at most every tile of the grid once. */
  lemma CoveredByBound(grid: EarthGrid, discs: seq<(Point, real)>)
    requires grid.Valid()
    ensures |grid.CoveredBy(discs)| <= grid.height * grid.width
  {
    assert grid.AllIndices() == IndicesBelow(grid.height, grid.width);
    IndicesBelowCount(grid.height, grid.width);
    SubsetCard(grid.CoveredBy(discs), grid.AllIndices());
  }

  lemma SubsetCard<T>(a: set<T>, b: set<T>)
    requires a <= b
    ensures |a| <= |b|
  {
    assert b == a + (b - a);
  }
}
