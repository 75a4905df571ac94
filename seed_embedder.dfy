/**
 * Seed embedder: `dump_start_seed_in_space` of idea.py.
 *
 * A flat seed pattern is read as a square of side `s` (the integer ceiling
 * of the square root of its length), zero-padded at the end to `s * s`
 * cells, and then copied, row by row, into an all-zero `x * x` grid with
 * row and column offset `(x - s) / 2`.  A cell is written only when its
 * linear grid index lies in `[0, x * x)`; columns are never checked, so
 * when `s > x` a seed row can spill into a neighbouring grid row and a
 * later write can overwrite an earlier one.
 *
 * Python's `//` floors; Dafny's `/` is Euclidean.  The only division here
 * is by 2, a positive divisor, where the two agree.
 */
module SeedEmbedder {

  /* ---------------------------------------------------------------- */
  /* Side length of the square seed                                     */
  /* ---------------------------------------------------------------- */

  /** The integer square root rounded down, the value `int(len ** 0.5)` stands for. */
  function FloorSqrt(n: nat): (r: nat)
    ensures r * r <= n < (r + 1) * (r + 1)
  {
    if n == 0 then 0
    else
      var r := FloorSqrt(n - 1);
      if (r + 1) * (r + 1) <= n then r + 1 else r
  }

  /** `seed_side_length`: the floor square root, raised by one when its square falls short. */
  function SeedSideLength(len: nat): (s: nat)
    ensures len <= s * s
    ensures s == 0 || (s - 1) * (s - 1) < len
  {
    var r := FloorSqrt(len);
    if r * r < len then r + 1 else r
  }

  lemma SquareMonotone(a: nat, b: nat)
    requires a <= b
    ensures a * a <= b * b
  {
    assert a * a <= a * b;
  }

  /** No smaller side holds the whole seed: SeedSideLength is the integer ceiling square root. */
  lemma SeedSideLengthIsLeast(len: nat, k: nat)
    requires len <= k * k
    ensures SeedSideLength(len) <= k
  {
    var s := SeedSideLength(len);
    if k < s {
      SquareMonotone(k, s - 1);
    }
  }

  /* ---------------------------------------------------------------- */
  /* The padded square seed                                             */
  /* ---------------------------------------------------------------- */

  /** `square_seed`: the seed followed by zeros up to `s * s` cells. */
  function SquareSeed(seed: seq<int>): (sq: seq<int>)
    ensures |sq| == SeedSideLength(|seed|) * SeedSideLength(|seed|)
    ensures |seed| <= |sq| && sq[..|seed|] == seed
    ensures forall k :: |seed| <= k < |sq| ==> sq[k] == 0
  {
    var s := SeedSideLength(|seed|);
    seed + seq(s * s - |seed|, _ => 0)
  }

  /* ---------------------------------------------------------------- */
  /* Placing the square seed in the grid                                */
  /* ---------------------------------------------------------------- */

  /**
   * `center_row` and `center_col`: the offset of an s-wide square in an
   * x-wide grid.  The margin after the square is the margin before it or
   * one more; when the square fits, both margins are non-negative.
   */
  function Offset(x: int, s: int): (off: int)
    ensures x - s - 2 * off == 0 || x - s - 2 * off == 1
    ensures s <= x ==> 0 <= off && off + s <= x
  {
    (x - s) / 2
  }

  /** `grid_idx`: where seed cell (i, j) lands in an x-wide grid at row offset r and column offset c. */
  function GridIndex(x: int, r: int, c: int, i: int, j: int): int
  {
    (r + i) * x + (c + j)
  }

  /** The grid index when the row and column offsets are both c, as they are in the source. */
  function Target(x: int, c: int, i: int, j: int): int
  {
    GridIndex(x, c, c, i, j)
  }

  /**
   * In an x-wide grid with x > 0, a grid index whose column c + j lies in
   * [0, x) decodes back to row r + i and column c + j; a column outside
   * [0, x) is what makes a seed row spill into another grid row.
   */
  lemma GridIndexDecodes(x: int, r: int, c: int, i: int, j: int)
    requires 0 <= c + j < x
    ensures GridIndex(x, r, c, i, j) / x == r + i
    ensures GridIndex(x, r, c, i, j) % x == c + j
  {
    var g := GridIndex(x, r, c, i, j);
    RowColumnUnique(x, g / x, g % x, r + i, c + j);
  }

  /** `seed_idx`: the position of seed cell (i, j) in the row-major s-wide square. */
  function SeedIndex(s: nat, i: nat, j: nat): nat
  {
    i * s + j
  }

  /** The targets of all seed cells, as one function of (i, j). */
  function Targets(x: int, c: int): (int, int) -> int
  {
    (i, j) => Target(x, c, i, j)
  }

  /**
   * One iteration of the inner loop: the guarded copy of seed cell (i, j)
   * of the s-wide square `sq` to grid index `target(i, j)`.
   */
  function Place(g: seq<int>, sq: seq<int>, s: nat, target: (int, int) -> int, i: nat, j: nat): (g': seq<int>)
    ensures |g'| == |g|
    ensures forall k :: 0 <= k < |g| && k != target(i, j) ==> g'[k] == g[k]
  {
    var gridIdx := target(i, j);
    var seedIdx := SeedIndex(s, i, j);
    if 0 <= gridIdx < |g| && seedIdx < |sq| then g[gridIdx := sq[seedIdx]] else g
  }

  /**
   * The grid of `size` cells once every seed cell before (i, j) in
   * row-major order has been placed: rows 0 .. i-1 completely and
   * columns 0 .. j-1 of row i.
   */
  function Placed(sq: seq<int>, s: nat, target: (int, int) -> int, size: nat, i: nat, j: nat): (g: seq<int>)
    requires j <= s
    ensures |g| == size
    decreases i, j
  {
    if j == 0 then
      if i == 0 then seq(size, _ => 0) else Placed(sq, s, target, size, i - 1, s)
    else
      Place(Placed(sq, s, target, size, i, j - 1), sq, s, target, i, j - 1)
  }

  /** The grid `dump_start_seed_in_space(seed, x)` returns. */
  function Embedded(seed: seq<int>, x: int): (g: seq<int>)
    ensures |g| == x * x
  {
    var s := SeedSideLength(|seed|);
    Placed(SquareSeed(seed), s, Targets(x, Offset(x, s)), x * x, s, 0)
  }

  /** Row-major order on seed cells. */
  predicate Precedes(i1: int, j1: int, i2: int, j2: int)
  {
    i1 < i2 || (i1 == i2 && j1 < j2)
  }

  /** Seed cell (i', j') of an s-wide square is visited before cell (i, j). */
  predicate WrittenBefore(s: nat, i': int, j': int, i: int, j: int)
  {
    0 <= i' && 0 <= j' < s && Precedes(i', j', i, j)
  }

  /** A grid cell that no earlier seed cell targets is still zero. */
  lemma {:induction false} PlacedUntouched(sq: seq<int>, s: nat, target: (int, int) -> int, size: nat, i: nat, j: nat, k: int)
    requires j <= s
    requires 0 <= k < size
    requires forall i', j' :: WrittenBefore(s, i', j', i, j) ==> target(i', j') != k
    ensures Placed(sq, s, target, size, i, j)[k] == 0
    decreases i, j
  {
    if j == 0 {
      if i > 0 {
        forall i', j' | WrittenBefore(s, i', j', i - 1, s)
          ensures target(i', j') != k
        {
          assert WrittenBefore(s, i', j', i, j);
        }
        PlacedUntouched(sq, s, target, size, i - 1, s, k);
      }
    } else {
      assert WrittenBefore(s, i, j - 1, i, j);
      PlacedUntouched(sq, s, target, size, i, j - 1, k);
    }
  }

  /**
   * A grid cell holds the seed value of the last seed cell that targeted it:
   * once (i0, j0) has written it and no later seed cell targets it again,
   * the value stays.
   */
  lemma {:induction false} PlacedKeeps(sq: seq<int>, s: nat, target: (int, int) -> int, size: nat,
                                       i: nat, j: nat, i0: nat, j0: nat)
    requires j <= s
    requires WrittenBefore(s, i0, j0, i, j)
    requires 0 <= target(i0, j0) < size
    requires SeedIndex(s, i0, j0) < |sq|
    requires forall i', j' :: WrittenBefore(s, i', j', i, j) && Precedes(i0, j0, i', j') ==>
               target(i', j') != target(i0, j0)
    ensures Placed(sq, s, target, size, i, j)[target(i0, j0)] == sq[SeedIndex(s, i0, j0)]
    decreases i, j
  {
    if j == 0 {
      forall i', j' | WrittenBefore(s, i', j', i - 1, s) && Precedes(i0, j0, i', j')
        ensures target(i', j') != target(i0, j0)
      {
        assert WrittenBefore(s, i', j', i, j);
      }
      PlacedKeeps(sq, s, target, size, i - 1, s, i0, j0);
    } else if i0 == i && j0 == j - 1 {
    } else {
      assert WrittenBefore(s, i, j - 1, i, j);
      PlacedKeeps(sq, s, target, size, i, j - 1, i0, j0);
    }
  }

  /** Cell k is hit by some seed cell of an s-wide square centred in an x-wide grid. */
  predicate Hit(s: nat, x: int, k: int)
  {
    exists i, j :: 0 <= i < s && 0 <= j < s && Target(x, Offset(x, s), i, j) == k
  }

  /** Every grid cell that no seed cell targets stays zero. */
  lemma EmbeddedUntouched(seed: seq<int>, x: int, k: int)
    requires 0 <= k < x * x
    requires !Hit(SeedSideLength(|seed|), x, k)
    ensures Embedded(seed, x)[k] == 0
  {
    var s := SeedSideLength(|seed|);
    var target := Targets(x, Offset(x, s));
    forall i', j' | WrittenBefore(s, i', j', s, 0)
      ensures target(i', j') != k
    {
      assert !(0 <= i' < s && 0 <= j' < s && Target(x, Offset(x, s), i', j') == k);
    }
    PlacedUntouched(SquareSeed(seed), s, target, x * x, s, 0, k);
  }

  /**
   * Last writer wins: a grid cell targeted by seed cell (i, j), and by no
   * seed cell after it in row-major order, holds square-seed cell i*s + j.
   * This covers clipping and the spill of long seed rows when s > x.
   */
  lemma EmbeddedLastWriter(seed: seq<int>, x: int, s: nat, i: nat, j: nat)
    requires s == SeedSideLength(|seed|)
    requires i < s && j < s
    requires 0 <= Target(x, Offset(x, s), i, j) < x * x
    requires forall i', j' :: 0 <= i' < s && 0 <= j' < s && Precedes(i, j, i', j') ==>
               Target(x, Offset(x, s), i', j') != Target(x, Offset(x, s), i, j)
    ensures SeedIndex(s, i, j) < |SquareSeed(seed)|
    ensures Embedded(seed, x)[Target(x, Offset(x, s), i, j)] == SquareSeed(seed)[SeedIndex(s, i, j)]
  {
    CellIndexBound(s, i, j);
    PlacedLastWriter(SquareSeed(seed), s, Targets(x, Offset(x, s)), x * x, i, j);
  }

  lemma PlacedLastWriter(sq: seq<int>, s: nat, target: (int, int) -> int, size: nat, i: nat, j: nat)
    requires i < s && j < s && SeedIndex(s, i, j) < |sq|
    requires 0 <= target(i, j) < size
    requires forall i', j' :: 0 <= i' < s && 0 <= j' < s && Precedes(i, j, i', j') ==> target(i', j') != target(i, j)
    ensures Placed(sq, s, target, size, s, 0)[target(i, j)] == sq[SeedIndex(s, i, j)]
  {
    PlacedKeeps(sq, s, target, size, s, 0, i, j);
  }

  lemma CellIndexBound(s: nat, i: nat, j: nat)
    requires i < s && j < s
    ensures SeedIndex(s, i, j) < s * s
  {
    assert i * s + j < (i + 1) * s;
    assert (i + 1) * s <= s * s;
  }

  /** Two grid cells whose columns both lie in [0, x) coincide only when row and column agree. */
  lemma RowColumnUnique(x: int, a: int, q: int, a': int, q': int)
    requires 0 <= q < x && 0 <= q' < x
    requires a * x + q == a' * x + q'
    ensures a == a' && q == q'
  {
    if a < a' {
      MulMonotone(a + 1, a', x);
      assert false;
    } else if a' < a {
      MulMonotone(a' + 1, a, x);
      assert false;
    }
  }

  lemma MulMonotone(a: int, b: int, x: int)
    requires a <= b && 0 <= x
    ensures a * x <= b * x
  {
    assert (b - a) * x >= 0;
  }

  /** A cell at row a and column q of an x-wide grid, both in [0, x), has an index in [0, x * x). */
  lemma CellInGrid(x: int, a: int, q: int)
    requires 0 <= a < x && 0 <= q < x
    ensures 0 <= a * x + q < x * x
  {
    assert a * x <= (x - 1) * x by {
      assert (x - 1 - a) * x >= 0;
    }
  }

  /**
   * When the square seed fits (s <= x) it lands intact: seed cell (i, j)
   * is at grid row off + i, column off + j, with off = (x - s) / 2.
   */
  lemma EmbeddedCentered(seed: seq<int>, x: int, i: nat, j: nat)
    requires SeedSideLength(|seed|) <= x
    requires i < SeedSideLength(|seed|) && j < SeedSideLength(|seed|)
    ensures var s := SeedSideLength(|seed|);
            var off := (x - s) / 2;
            && 0 <= (off + i) * x + (off + j) < x * x
            && SeedIndex(s, i, j) < |SquareSeed(seed)|
            && Embedded(seed, x)[(off + i) * x + (off + j)] == SquareSeed(seed)[SeedIndex(s, i, j)]
  {
    var s := SeedSideLength(|seed|);
    var off := Offset(x, s);
    assert 0 <= off && off + s <= x;
    CellInGrid(x, off + i, off + j);
    forall i', j' | 0 <= i' < s && 0 <= j' < s && Precedes(i, j, i', j')
      ensures Target(x, off, i', j') != Target(x, off, i, j)
    {
      if Target(x, off, i', j') == Target(x, off, i, j) {
        GridIndexDecodes(x, off, off, i', j');
        GridIndexDecodes(x, off, off, i, j);
      }
    }
    EmbeddedLastWriter(seed, x, s, i, j);
  }

  /* ---------------------------------------------------------------- */
  /* The imperative procedure                                           */
  /* ---------------------------------------------------------------- */

  /**
   * The zero-padded square seed as a fresh array of s * s cells: the seed
   * copied in, the rest left at 0.
   */
  method PadToSquare(startSeed: seq<int>, s: nat) returns (squareSeed: array<int>)
    requires s == SeedSideLength(|startSeed|)
    ensures fresh(squareSeed)
    ensures squareSeed[..] == SquareSeed(startSeed)
  {
    squareSeed := new int[s * s](_ => 0);
    var m := if |startSeed| < squareSeed.Length then |startSeed| else squareSeed.Length;
    for i := 0 to m
      invariant forall k :: 0 <= k < squareSeed.Length ==> squareSeed[k] == if k < i then startSeed[k] else 0
    {
      squareSeed[i] := startSeed[i];
    }
    ghost var sq := SquareSeed(startSeed);
    assert squareSeed[..] == sq by {
      forall k | 0 <= k < squareSeed.Length
        ensures squareSeed[k] == sq[k]
      {
        if k < |startSeed| {
          assert sq[k] == sq[..|startSeed|][k];
        }
      }
    }
  }

  /**
   * The copy loops of `dump_start_seed_in_space`: a fresh zero grid of
   * x * x cells, then every seed cell (i, j), row by row, written to its
   * grid index when that index is inside the grid.
   */
  method CopyIntoGrid(squareSeed: array<int>, s: nat, x: int) returns (grid: seq<int>)
    ensures grid == Placed(squareSeed[..], s, Targets(x, Offset(x, s)), x * x, s, 0)
  {
    ghost var sq := squareSeed[..];
    ghost var target := Targets(x, Offset(x, s));
    var size: nat := x * x;
    var startSeedGrid := new int[size](_ => 0);
    var centerRow := (x - s) / 2;
    var centerCol := (x - s) / 2;
    for i := 0 to s
      invariant startSeedGrid[..] == Placed(sq, s, target, size, i, 0)
    {
      for j := 0 to s
        invariant startSeedGrid[..] == Placed(sq, s, target, size, i, j)
      {
        var seedIdx := SeedIndex(s, i, j);
        var gridIdx := GridIndex(x, centerRow, centerCol, i, j);
        assert gridIdx == target(i, j);
        ghost var before := startSeedGrid[..];
        if 0 <= gridIdx < startSeedGrid.Length && seedIdx < squareSeed.Length {
          startSeedGrid[gridIdx] := squareSeed[seedIdx];
          assert startSeedGrid[..] == before[gridIdx := sq[seedIdx]];
        }
        assert startSeedGrid[..] == Place(before, sq, s, target, i, j);
      }
    }
    grid := startSeedGrid[..];
  }

  /**
   * `dump_start_seed_in_space`: the side length, the padded square seed,
   * then the copy into a centred x * x grid.  Never fails, for any seed
   * and any side x.
   */
  method DumpStartSeedInSpace(startSeed: seq<int>, x: int) returns (grid: seq<int>)
    ensures |grid| == x * x
    ensures grid == Embedded(startSeed, x)
  {
    var s := FloorSqrt(|startSeed|);
    if s * s < |startSeed| {
      s := s + 1;
    }
    assert s == SeedSideLength(|startSeed|);
    var squareSeed := PadToSquare(startSeed, s);
    grid := CopyIntoGrid(squareSeed, s, x);
  }

  /* ---------------------------------------------------------------- */
  /* Worked examples                                                    */
  /* ---------------------------------------------------------------- */

  /** A three-cell seed gets side 2 and one cell of zero padding. */
  lemma PaddingExample()
    ensures SeedSideLength(3) == 2
    ensures SquareSeed([1, 1, 1]) == [1, 1, 1, 0]
  {
    assert FloorSqrt(1) == 1;
    assert FloorSqrt(2) == 1;
    assert FloorSqrt(3) == 1;
  }

  /** A one-cell seed in a 5 x 5 grid lands at the centre, index 2 * 5 + 2. */
  lemma CentreExample()
    ensures Embedded([1], 5) == seq(25, k => if k == 12 then 1 else 0)
  {
    assert FloorSqrt(1) == 1;
    assert SeedSideLength(1) == 1;
    assert SquareSeed([1]) == [1];
  }

  /**
   * A nine-cell seed (side 3) in a 2 x 2 grid (offset -1): seed cells
   * whose index falls outside the grid are dropped, seed cell (1, 2)
   * spills from row 1 onto grid cell 1, and seed cell (2, 0) then
   * overwrites it.
   */
  lemma SpillExample(seed: seq<int>)
    requires |seed| == 9
    ensures |Embedded(seed, 2)| == 4
    ensures Embedded(seed, 2)[0] == seed[4]
    ensures Embedded(seed, 2)[1] == seed[6]
    ensures Embedded(seed, 2)[2] == seed[7]
    ensures Embedded(seed, 2)[3] == seed[8]
  {
    SpillLastWriter(seed, 1, 1, 0, 4);
    SpillLastWriter(seed, 2, 0, 1, 6);
    SpillLastWriter(seed, 2, 1, 2, 7);
    SpillLastWriter(seed, 2, 2, 3, 8);
  }

  /**
   * In the spill example, seed cells (1, 1), (2, 0), (2, 1) and (2, 2)
   * are each the last to target grid cell k = 2 * i + j - 3.
   */
  lemma SpillLastWriter(seed: seq<int>, i: nat, j: nat, k: nat, m: nat)
    requires |seed| == 9
    requires (i == 1 && j == 1) || (i == 2 && j <= 2)
    requires k == 2 * i + j - 3 && m == 3 * i + j
    ensures Embedded(seed, 2)[k] == seed[m]
  {
    var s := SeedSideLength(|seed|);
    assert s == 3 by {
      SeedSideLengthIsLeast(9, 3);
    }
    assert SquareSeed(seed) == seed;
    var c := Offset(2, s);
    assert c == -1;
    assert Target(2, c, i, j) == k;
    forall i', j' | 0 <= i' < s && 0 <= j' < s && Precedes(i, j, i', j')
      ensures Target(2, c, i', j') != Target(2, c, i, j)
    {
      assert Target(2, c, i', j') == 2 * i' + j' - 3;
    }
    assert SeedIndex(s, i, j) == m;
    EmbeddedLastWriter(seed, 2, s, i, j);
  }
}
