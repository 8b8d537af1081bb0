/** The initial grid: every cell that passes the `wrapping_sub` box test
    takes the next draw of the random source, every other cell is dead.
    The random source is a stream of booleans, `rng(k)` being the outcome
    of the `k`-th `gen_bool` call. */
module Seeder {
  import opened Usize
  import opened Grid

  const SeedBoundingBox: nat := CellWidth / 2

  /** The box test of the seeder on coordinates, as written:
      `(CELL_WIDTH / 2).wrapping_sub(x) < SEED_BOUNDING_BOX` and the same
      for `y` with `CELL_HEIGHT`. For every pair of `usize` values it passes
      exactly when `x` and `y` are both in `[1, 50]`: a coordinate of 0
      gives a difference of 50, which is not below 50, and one above 50
      wraps to `2^64 + 50 - x`, far above 50. */
  predicate SeedBoxTest(x: nat, y: nat)
    requires IsUsize(x) && IsUsize(y)
    ensures SeedBoxTest(x, y) <==> 1 <= x <= CellWidth / 2 && 1 <= y <= CellHeight / 2
  {
    WrappingSub(CellWidth / 2, x) < SeedBoundingBox &&
    WrappingSub(CellHeight / 2, y) < SeedBoundingBox
  }

  /** Cell `i` lies in the seed box: the top-left quarter shifted by one
      cell, columns and rows 1 to 50. */
  predicate InSeedBox(i: nat) {
    1 <= GetXY(i).0 <= CellWidth / 2 && 1 <= GetXY(i).1 <= CellHeight / 2
  }

  /** The box test of cell `i`, as the seeder runs it on `get_x_y(i)`,
      passes exactly for the cells of the seed box. */
  lemma InSeedBoxIff(i: nat)
    requires i < CellCount
    ensures IsUsize(GetXY(i).0) && IsUsize(GetXY(i).1)
    ensures SeedBoxTest(GetXY(i).0, GetXY(i).1) <==> InSeedBox(i)
  {
    IndexRoundTrip(i);
  }

  /** The number of random draws taken before cell `i` is visited: the
      number of in-box cells with a lower index. */
  function DrawsBefore(i: nat): (n: nat)
    requires i <= CellCount
    ensures n <= i
  {
    if i == 0 then 0
    else DrawsBefore(i - 1) + (if InSeedBox(i - 1) then 1 else 0)
  }

  /** The seeded value of cell `i` for the draw stream `rng`. */
  predicate SeededCell(rng: nat -> bool, i: nat)
    requires i < CellCount
  {
    InSeedBox(i) && rng(DrawsBefore(i))
  }

  /** The seeded grid for the draw stream `rng`. */
  function SeedGrid(rng: nat -> bool): (g: seq<bool>)
    ensures |g| == CellCount
  {
    seq(CellCount, i requires 0 <= i < CellCount => SeededCell(rng, i))
  }

  /** A cell that fails the box test of `seed_cells` is dead; a cell that
      passes it holds the draw numbered by how many passing cells precede
      it, and takes exactly one draw. */
  lemma SeedGridCells(rng: nat -> bool, i: nat)
    requires i < CellCount
    ensures IsUsize(GetXY(i).0) && IsUsize(GetXY(i).1)
    ensures !SeedBoxTest(GetXY(i).0, GetXY(i).1) ==> !SeedGrid(rng)[i]
    ensures SeedBoxTest(GetXY(i).0, GetXY(i).1) ==>
              SeedGrid(rng)[i] == rng(DrawsBefore(i)) && DrawsBefore(i + 1) == DrawsBefore(i) + 1
  {
    InSeedBoxIff(i);
  }

  /** Different in-box cells use different draws, earlier cells earlier
      ones: exactly one draw per in-box cell. */
  lemma {:induction false} DrawsIncrease(i: nat, j: nat)
    requires i < j <= CellCount && InSeedBox(i)
    ensures DrawsBefore(i) < DrawsBefore(j)
    decreases j
  {
    if j > i + 1 {
      DrawsIncrease(i, j - 1);
    }
  }

  /** The number of in-box cells before column `col` of row `row`: rows 1
      to 50 hold 50 such cells each, at columns 1 to 50. */
  function ClosedDraws(row: int, col: int): int {
    50 * Min(Max(row - 1, 0), 50) +
    (if 1 <= row <= 50 then Max(Min(col - 1, 50), 0) else 0)
  }

  /** Moving one cell on adds one to the closed form exactly when the cell
      moved past is in the box. */
  lemma ClosedDrawsStep(row: nat, col: nat)
    requires col < 100
    ensures ClosedDraws(if col == 99 then row + 1 else row, if col == 99 then 0 else col + 1) ==
            ClosedDraws(row, col) + if 1 <= col <= 50 && 1 <= row <= 50 then 1 else 0
  {
  }

  /** Stepping an index by one either moves one column right in the same
      row or, from the last column, to column 0 of the next row. */
  lemma IndexStep(i: nat)
    requires i > 0
    ensures (i - 1) % 100 == 99 ==> i / 100 == (i - 1) / 100 + 1 && i % 100 == 0
    ensures (i - 1) % 100 < 99 ==> i / 100 == (i - 1) / 100 && i % 100 == (i - 1) % 100 + 1
  {
    var q, r := (i - 1) / 100, (i - 1) % 100;
    assert i - 1 == 100 * q + r && 0 <= r < 100;
    if r == 99 {
      assert i == 100 * (q + 1);
    } else {
      assert i == 100 * q + (r + 1);
    }
  }

  /** Closed form of the draw count. */
  lemma {:induction false} DrawsBeforeClosedForm(i: nat)
    requires i <= CellCount
    ensures DrawsBefore(i) == ClosedDraws(i / 100, i % 100)
  {
    if i > 0 {
      DrawsBeforeClosedForm(i - 1);
      IndexStep(i);
      ClosedDrawsStep((i - 1) / 100, (i - 1) % 100);
    }
  }

  function Min(a: int, b: int): int { if a < b then a else b }
  function Max(a: int, b: int): int { if a < b then b else a }

  /** The seeder takes 2500 draws in all, and every in-box cell's draw is
      one of them. */
  lemma DrawCount(i: nat)
    requires i < CellCount && InSeedBox(i)
    ensures DrawsBefore(CellCount) == 2500
    ensures DrawsBefore(i) < 2500
  {
    DrawsBeforeClosedForm(CellCount);
    DrawsIncrease(i, CellCount);
  }

  /** An all-false draw stream seeds an all-dead grid; an all-true stream
      seeds exactly the box. */
  lemma SeedGridConstantStreams(rng: nat -> bool)
    ensures (forall k :: !rng(k)) ==> forall i :: 0 <= i < CellCount ==> !SeedGrid(rng)[i]
    ensures (forall k :: rng(k)) ==> forall i :: 0 <= i < CellCount ==> SeedGrid(rng)[i] == InSeedBox(i)
  {
    forall i | 0 <= i < CellCount
      ensures SeedGrid(rng)[i] == (InSeedBox(i) && rng(DrawsBefore(i)))
    {
    }
  }

  /** One iteration of the `seed_cells` loop: a cell that passes the box
      test takes the next draw, number `drawn`; any other cell is left alone,
      as dead as it started. */
  method SeedCell(a: array<bool>, i: nat, rng: nat -> bool, drawn: nat) returns (next: nat)
    requires a.Length == CellCount && i < CellCount
    requires drawn == DrawsBefore(i) && !a[i]
    modifies a
    ensures next == DrawsBefore(i + 1)
    ensures a[..] == old(a[..])[i := SeededCell(rng, i)]
  {
    next := drawn;
    var (x, y) := GetXY(i);
    IndexRoundTrip(i);
    InSeedBoxIff(i);
    if SeedBoxTest(x, y) {
      a[i] := rng(next);
      next := next + 1;
    }
  }

  /** `seed_cells`: start from an all-dead grid and give every cell that
      passes the box test the next draw, in index order. */
  method SeedCells(rng: nat -> bool) returns (cells: seq<bool>)
    ensures cells == SeedGrid(rng)
  {
    var a := new bool[CellCount](_ => false);
    var drawn := 0;
    for i := 0 to CellCount
      invariant drawn == DrawsBefore(i)
      invariant forall k :: 0 <= k < i ==> a[k] == SeededCell(rng, k)
      invariant forall k :: i <= k < CellCount ==> !a[k]
    {
      drawn := SeedCell(a, i, rng, drawn);
    }
    cells := a[..];
    SeedGridEq(rng, cells);
  }

  /** A grid that holds the seeded value in every cell is the seeded grid. */
  lemma SeedGridEq(rng: nat -> bool, cells: seq<bool>)
    requires |cells| == CellCount
    requires forall k :: 0 <= k < CellCount ==> cells[k] == SeededCell(rng, k)
    ensures cells == SeedGrid(rng)
  {
  }
}
