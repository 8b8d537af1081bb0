/** One generation step of the automaton: candidate neighbour indices built
    with overflow-flagged unsigned arithmetic, the hard-coded Conway rule,
    and the in-place sweep that updates cells in index order in the same
    grid, so that later cells read already-updated lower neighbours. */
module Generation {
  import opened Usize
  import opened Grid

  /** The neighbour offsets of the eight pushes, in source order. */
  const Offsets: seq<(int, int)> :=
    [(-1, 0), (1, 0), (0, -1), (0, 1), (-1, -1), (1, -1), (-1, 1), (1, 1)]

  /** Push `k` (0 to 7, in source order) of cell `(x, y)`: whether its
      guard holds (none of the `overflowing_sub` / `overflowing_add` results
      it uses wrapped) and the coordinate pair whose index it pushes. The
      guard holds exactly when the neighbour at offset `k` has `usize`
      coordinates, and then that neighbour is the pair pushed. */
  function Push(x: nat, y: nat, k: nat): (p: (bool, (nat, nat)))
    requires IsUsize(x) && IsUsize(y) && k < 8
    ensures p.0 <==> IsUsize(x + Offsets[k].0) && IsUsize(y + Offsets[k].1)
    ensures p.0 ==> p.1 == (x + Offsets[k].0, y + Offsets[k].1)
  {
    var (xa, xao) := OverflowingSub(x, 1);
    var (xb, xbo) := OverflowingAdd(x, 1);
    var (ya, yao) := OverflowingSub(y, 1);
    var (yb, ybo) := OverflowingAdd(y, 1);
    if k == 0 then (!xao, (xa, y))
    else if k == 1 then (!xbo, (xb, y))
    else if k == 2 then (!yao, (x, ya))
    else if k == 3 then (!ybo, (x, yb))
    else if k == 4 then (!xao && !yao, (xa, ya))
    else if k == 5 then (!xbo && !yao, (xb, ya))
    else if k == 6 then (!xao && !ybo, (xa, yb))
    else (!xbo && !ybo, (xb, yb))
  }

  /** The coordinate pairs pushed by the first `n` guarded pushes. */
  function CoordsUpTo(x: nat, y: nat, n: nat): (c: seq<(nat, nat)>)
    requires IsUsize(x) && IsUsize(y) && n <= 8
    ensures |c| <= n
  {
    if n == 0 then []
    else
      var p := Push(x, y, n - 1);
      CoordsUpTo(x, y, n - 1) + (if p.0 then [p.1] else [])
  }

  /** The coordinate pairs pushed for cell `(x, y)`, in push order. */
  function CandidateCoords(x: nat, y: nat): (c: seq<(nat, nat)>)
    requires IsUsize(x) && IsUsize(y)
    ensures |c| <= 8
  {
    CoordsUpTo(x, y, 8)
  }

  /** The eight guarded pushes written out one after the other. */
  lemma CandidateCoordsUnrolled(x: nat, y: nat)
    requires IsUsize(x) && IsUsize(y)
    ensures CandidateCoords(x, y) ==
              (if x > 0 then [(x - 1, y)] else [])
            + (if x < UsizeMax then [(x + 1, y)] else [])
            + (if y > 0 then [(x, y - 1)] else [])
            + (if y < UsizeMax then [(x, y + 1)] else [])
            + (if x > 0 && y > 0 then [(x - 1, y - 1)] else [])
            + (if x < UsizeMax && y > 0 then [(x + 1, y - 1)] else [])
            + (if x > 0 && y < UsizeMax then [(x - 1, y + 1)] else [])
            + (if x < UsizeMax && y < UsizeMax then [(x + 1, y + 1)] else [])
  {
    assert CoordsUpTo(x, y, 1) == if x > 0 then [(x - 1, y)] else [];
    assert CoordsUpTo(x, y, 2) == CoordsUpTo(x, y, 1) + if x < UsizeMax then [(x + 1, y)] else [];
    assert CoordsUpTo(x, y, 3) == CoordsUpTo(x, y, 2) + if y > 0 then [(x, y - 1)] else [];
    assert CoordsUpTo(x, y, 4) == CoordsUpTo(x, y, 3) + if y < UsizeMax then [(x, y + 1)] else [];
    assert CoordsUpTo(x, y, 5) == CoordsUpTo(x, y, 4) +
      if x > 0 && y > 0 then [(x - 1, y - 1)] else [];
    assert CoordsUpTo(x, y, 6) == CoordsUpTo(x, y, 5) +
      if x < UsizeMax && y > 0 then [(x + 1, y - 1)] else [];
    assert CoordsUpTo(x, y, 7) == CoordsUpTo(x, y, 6) +
      if x > 0 && y < UsizeMax then [(x - 1, y + 1)] else [];
  }

  /** A coordinate pair is a candidate exactly when it is one of the eight
      Moore neighbours of `(x, y)` that is representable as a `usize` pair:
      nothing is clipped at the right or bottom edge, only below zero. */
  lemma CandidateCoordsMoore(x: nat, y: nat, cx: nat, cy: nat)
    requires IsUsize(x) && IsUsize(y)
    ensures (cx, cy) in CandidateCoords(x, y) <==>
            (cx, cy) != (x, y) && IsUsize(cx) && IsUsize(cy) &&
            x - 1 <= cx <= x + 1 && y - 1 <= cy <= y + 1
  {
    CandidateCoordsUnrolled(x, y);
  }

  /** Boundary cells have fewer candidates: 8 inside, 5 on the left or top
      edge, 3 at the origin corner. */
  lemma CandidateCount(x: nat, y: nat)
    requires x < CellWidth && y < CellHeight
    ensures |CandidateCoords(x, y)| ==
            (if x == 0 then 2 else 3) * (if y == 0 then 2 else 3) - 1
  {
    CandidateCoordsUnrolled(x, y);
  }

  /** At `x == 0` no `x - 1` candidate is built, and at `y == 0` no `y - 1`
      candidate: the wrapped value `usize::MAX` never appears. */
  lemma NoUnderflowCandidates(x: nat, y: nat)
    requires x < CellWidth && y < CellHeight
    ensures x == 0 ==> forall k :: 0 <= k < |CandidateCoords(x, y)| ==>
                         CandidateCoords(x, y)[k].0 <= 1
    ensures y == 0 ==> forall k :: 0 <= k < |CandidateCoords(x, y)| ==>
                         CandidateCoords(x, y)[k].1 <= 1
  {
    CandidateCoordsUnrolled(x, y);
  }

  /** The indices pushed by the first `n` guarded pushes. */
  function IndicesUpTo(x: nat, y: nat, n: nat): (v: seq<nat>)
    requires x < CellWidth && y < CellHeight && n <= 8
    ensures |v| == |CoordsUpTo(x, y, n)|
  {
    if n == 0 then []
    else
      var p := Push(x, y, n - 1);
      IndicesUpTo(x, y, n - 1) + (if p.0 then [GetIdx(p.1.0, p.1.1)] else [])
  }

  /** Each pushed index is `get_idx` of the pushed coordinate pair. */
  lemma {:induction false} IndicesUpToCoords(x: nat, y: nat, n: nat)
    requires x < CellWidth && y < CellHeight && n <= 8
    ensures forall k :: 0 <= k < |IndicesUpTo(x, y, n)| ==>
              IndicesUpTo(x, y, n)[k] == GetIdx(CoordsUpTo(x, y, n)[k].0, CoordsUpTo(x, y, n)[k].1)
  {
    if n > 0 {
      IndicesUpToCoords(x, y, n - 1);
    }
  }

  /** The candidate indices of cell `(x, y)`: `get_idx` of each candidate
      coordinate pair, in push order; none of them overflows a `usize`. */
  function Candidates(x: nat, y: nat): (v: seq<nat>)
    requires x < CellWidth && y < CellHeight
    ensures |v| == |CandidateCoords(x, y)| <= 8
  {
    IndicesUpTo(x, y, 8)
  }

  /** Each candidate index is `get_idx` of the candidate coordinate pair at
      the same position, and none of them overflows a `usize`. */
  lemma CandidatesAreIndices(x: nat, y: nat)
    requires x < CellWidth && y < CellHeight
    ensures forall k :: 0 <= k < |Candidates(x, y)| ==>
              Candidates(x, y)[k] == GetIdx(CandidateCoords(x, y)[k].0, CandidateCoords(x, y)[k].1)
    ensures forall k :: 0 <= k < |Candidates(x, y)| ==> Candidates(x, y)[k] <= CellCount + CellWidth
  {
    IndicesUpToCoords(x, y, 8);
    CandidateCoordsUnrolled(x, y);
  }

  /** The cell at the origin has exactly the three candidates (1, 0),
      (0, 1) and (1, 1). */
  lemma OriginCandidates()
    ensures Candidates(0, 0) == [GetIdx(1, 0), GetIdx(0, 1), GetIdx(1, 1)]
    ensures Candidates(0, 0) == [1, 100, 101]
  {
    assert IndicesUpTo(0, 0, 1) == [];
    assert IndicesUpTo(0, 0, 2) == [1];
    assert IndicesUpTo(0, 0, 4) == [1, 100];
    assert IndicesUpTo(0, 0, 7) == [1, 100];
  }

  /** On the bottom row every `y + 1` candidate has an index past the end
      of the grid, so it is never read. */
  lemma BottomRowDropped(x: nat, k: nat)
    requires x < CellWidth
    requires k < |CandidateCoords(x, CellHeight - 1)|
    requires CandidateCoords(x, CellHeight - 1)[k].1 == CellHeight
    ensures Candidates(x, CellHeight - 1)[k] >= CellCount
  {
    CandidatesAreIndices(x, CellHeight - 1);
  }

  /** On the right edge the `x + 1` candidate of row `y` is the index of the
      cell `(0, y + 1)`; below the bottom row that index is inside the grid. */
  lemma RightEdgeWraps(y: nat)
    requires y < CellHeight
    ensures GetIdx(0, y + 1) in Candidates(CellWidth - 1, y)
    ensures y < CellHeight - 1 ==> GetIdx(0, y + 1) < CellCount
  {
    CandidateCoordsUnrolled(CellWidth - 1, y);
    CandidatesAreIndices(CellWidth - 1, y);
    var c := CandidateCoords(CellWidth - 1, y);
    assert c[1] == (CellWidth, y);
    PastRightEdge(y);
    assert Candidates(CellWidth - 1, y)[1] == GetIdx(CellWidth, y);
  }

  /** Number of live cells among the indices `v` that lie inside `g`,
      counted in order; an index at or past `|g|` is skipped. */
  function CountLive(g: seq<bool>, v: seq<nat>): (n: nat)
    ensures n <= |v|
  {
    if v == [] then 0
    else CountLive(g, v[..|v| - 1]) + (if v[|v| - 1] < |g| && g[v[|v| - 1]] then 1 else 0)
  }

  /** With no live cell inside the grid among the indices the count is 0. */
  lemma {:induction false} CountLiveNone(g: seq<bool>, v: seq<nat>)
    requires forall k :: 0 <= k < |v| && v[k] < |g| ==> !g[v[k]]
    ensures CountLive(g, v) == 0
  {
    if v != [] {
      CountLiveNone(g, v[..|v| - 1]);
    }
  }

  /** Any live cell inside the grid among the indices makes the count positive. */
  lemma {:induction false} CountLivePositive(g: seq<bool>, v: seq<nat>, k: nat)
    requires k < |v| && v[k] < |g| && g[v[k]]
    ensures CountLive(g, v) >= 1
  {
    if k < |v| - 1 {
      CountLivePositive(g, v[..|v| - 1], k);
    }
  }

  /** The count only reads the grid at the indices, and only those inside it. */
  lemma {:induction false} CountLiveReadsOnly(g: seq<bool>, h: seq<bool>, v: seq<nat>)
    requires |g| == |h|
    requires forall k :: 0 <= k < |v| && v[k] < |g| ==> g[v[k]] == h[v[k]]
    ensures CountLive(g, v) == CountLive(h, v)
  {
    if v != [] {
      CountLiveReadsOnly(g, h, v[..|v| - 1]);
    }
  }

  /** The live-neighbour count of cell `i` in grid `g`. */
  function LiveCount(g: seq<bool>, i: nat): (n: nat)
    requires i < CellCount
    ensures n <= 8
  {
    IndexRoundTrip(i);
    var (x, y) := GetXY(i);
    CountLive(g, Candidates(x, y))
  }

  /** A right-edge cell above the bottom row counts a live `(0, y + 1)`. */
  lemma RightEdgeCounted(g: seq<bool>, y: nat)
    requires |g| == CellCount && y < CellHeight - 1
    requires g[GetIdx(0, y + 1)]
    ensures LiveCount(g, GetIdx(CellWidth - 1, y)) >= 1
  {
    CoordRoundTrip(CellWidth - 1, y);
    RightEdgeWraps(y);
    var v := Candidates(CellWidth - 1, y);
    var k :| 0 <= k < |v| && v[k] == GetIdx(0, y + 1);
    CountLivePositive(g, v, k);
  }

  /** The hard-coded rule of the sweep, branch for branch. */
  function NextState(state: bool, liveCount: nat): (r: bool)
    ensures state ==> (r <==> 2 <= liveCount <= 3)
    ensures !state ==> (r <==> liveCount == 3)
  {
    if state then
      if liveCount < 2 then false
      else if liveCount > 3 then false
      else state
    else
      if liveCount == 3 then true
      else state
  }

  /** One iteration of the sweep: cell `i` of `q` rewritten by the rule
      from its own state and its live count in `q`. */
  function SweepStep(q: seq<bool>, i: nat): (r: seq<bool>)
    requires |q| == CellCount && i < CellCount
    ensures |r| == CellCount
  {
    q[i := NextState(q[i], LiveCount(q, i))]
  }

  /** One iteration writes only its own cell. */
  lemma SweepStepOthers(q: seq<bool>, i: nat, k: nat)
    requires |q| == CellCount && i < CellCount && k < CellCount && k != i
    ensures SweepStep(q, i)[k] == q[k]
  {
  }

  /** The grid after the first `i` iterations of the sweep over `g`: cell
      `i - 1` was rewritten from the grid as the previous iterations left it. */
  function Partial(g: seq<bool>, i: nat): (p: seq<bool>)
    requires |g| == CellCount && i <= CellCount
    ensures |p| == CellCount
    decreases i
  {
    if i == 0 then g else SweepStep(Partial(g, i - 1), i - 1)
  }

  /** The result of one generation tick: the sweep run over every cell. */
  function Tick(g: seq<bool>): (t: seq<bool>)
    requires |g| == CellCount
    ensures |t| == |g|
  {
    Partial(g, CellCount)
  }

  /** Cells at index `i` and above still hold their input values after `i`
      iterations. */
  lemma {:induction false} PartialUntouched(g: seq<bool>, i: nat, k: nat)
    requires |g| == CellCount && i <= k < CellCount
    ensures Partial(g, i)[k] == g[k]
  {
    if i > 0 {
      PartialUntouched(g, i - 1, k);
      SweepStepOthers(Partial(g, i - 1), i - 1, k);
    }
  }

  /** Once iteration `k` has written cell `k`, no later iteration changes it. */
  lemma {:induction false} PartialFrozen(g: seq<bool>, k: nat, j: nat)
    requires |g| == CellCount && k < j <= CellCount
    ensures Partial(g, j)[k] == Partial(g, k + 1)[k]
    decreases j
  {
    if j > k + 1 {
      PartialFrozen(g, k, j - 1);
      SweepStepOthers(Partial(g, j - 1), j - 1, k);
    }
  }

  /** After `i` iterations the grid is the result's first `i` cells followed
      by the input's remaining cells. */
  lemma PartialIsMixed(g: seq<bool>, i: nat)
    requires |g| == CellCount && i <= CellCount
    ensures Partial(g, i) == Tick(g)[..i] + g[i..]
  {
    var p := Partial(g, i);
    var m := Tick(g)[..i] + g[i..];
    forall k | 0 <= k < CellCount
      ensures p[k] == m[k]
    {
      if k < i {
        PartialFrozen(g, k, i);
        PartialFrozen(g, k, CellCount);
      } else {
        PartialUntouched(g, i, k);
      }
    }
  }

  /** Each result cell is the rule applied to the cell's INPUT state and to
      the live count read from a grid whose cells below `i` already hold
      their next-generation values and whose cells from `i` on hold their
      input values. */
  lemma TickCell(g: seq<bool>, i: nat)
    requires |g| == CellCount && i < CellCount
    ensures Tick(g)[i] == NextState(g[i], LiveCount(Tick(g)[..i] + g[i..], i))
  {
    PartialFrozen(g, i, CellCount);
    PartialUntouched(g, i, i);
    PartialIsMixed(g, i);
  }

  /** The in-place sweep equation of cell `i`: it follows from its input
      state and from the mixed grid of already-updated cells of `t` below
      `i` and input cells of `g` from `i` on. */
  ghost predicate SweptCell(g: seq<bool>, t: seq<bool>, i: nat)
    requires |g| == |t| == CellCount && i < CellCount
  {
    t[i] == NextState(g[i], LiveCount(t[..i] + g[i..], i))
  }

  /** The in-place sweep equations of every cell. */
  ghost predicate SweepEquations(g: seq<bool>, t: seq<bool>)
    requires |g| == CellCount
  {
    |t| == CellCount && forall i :: 0 <= i < CellCount ==> SweptCell(g, t, i)
  }

  /** Writing cell `j - 1` of `t` into the mixed grid of split point
      `j - 1` gives the mixed grid of split point `j`. */
  lemma MixedUpdate(t: seq<bool>, g: seq<bool>, j: nat)
    requires |t| == |g| && 0 < j <= |g|
    ensures (t[..j - 1] + g[j - 1..])[j - 1 := t[j - 1]] == t[..j] + g[j..]
  {
    var m := (t[..j - 1] + g[j - 1..])[j - 1 := t[j - 1]];
    var r := t[..j] + g[j..];
    forall k | 0 <= k < |g|
      ensures m[k] == r[k]
    {
    }
  }

  /** One iteration applied to the mixed grid of split point `j - 1` of a
      solution of the sweep equations yields the mixed grid of split point
      `j`. */
  lemma SweepStepMixed(g: seq<bool>, t: seq<bool>, j: nat)
    requires |g| == |t| == CellCount && 0 < j <= CellCount
    requires SweptCell(g, t, j - 1)
    ensures SweepStep(t[..j - 1] + g[j - 1..], j - 1) == t[..j] + g[j..]
  {
    var m := t[..j - 1] + g[j - 1..];
    assert m[j - 1] == g[j - 1];
    assert SweepStep(m, j - 1) == m[j - 1 := t[j - 1]];
    MixedUpdate(t, g, j);
  }

  /** A grid satisfying the sweep equations is the iteration's grid at
      every intermediate step. */
  lemma {:induction false} SweepEquationsPartial(g: seq<bool>, t: seq<bool>, j: nat)
    requires |g| == CellCount && j <= CellCount
    requires SweepEquations(g, t)
    ensures Partial(g, j) == t[..j] + g[j..]
  {
    if j > 0 {
      SweepEquationsPartial(g, t, j - 1);
      SweepStepMixed(g, t, j);
    }
  }

  /** The tick result is exactly the grid that satisfies the in-place sweep
      equations: it satisfies them, and it is the only one that does. */
  lemma TickIffSweepEquations(g: seq<bool>, t: seq<bool>)
    requires |g| == CellCount
    ensures SweepEquations(g, t) <==> t == Tick(g)
  {
    if SweepEquations(g, t) {
      SweepEquationsPartial(g, t, CellCount);
      assert t[..CellCount] == t;
    }
    if t == Tick(g) {
      forall i | 0 <= i < CellCount
        ensures SweptCell(g, t, i)
      {
        TickCell(g, i);
      }
    }
  }

  /** An all-dead grid stays all dead. */
  lemma DeadGridStaysDead(g: seq<bool>)
    requires |g| == CellCount
    requires forall i :: 0 <= i < CellCount ==> !g[i]
    ensures Tick(g) == g
  {
    forall i | 0 <= i < CellCount
      ensures SweptCell(g, g, i)
    {
      assert g[..i] + g[i..] == g;
      IndexRoundTrip(i);
      CountLiveNone(g, Candidates(GetXY(i).0, GetXY(i).1));
    }
    TickIffSweepEquations(g, g);
  }

  /** The candidate pushes of `cell_generation_tick`: push the candidate
      indices of cell `(x, y)`, guarded by the overflow flags. */
  method PushCandidates(x: nat, y: nat) returns (v: seq<nat>)
    requires x < CellWidth && y < CellHeight
    ensures v == Candidates(x, y)
  {
    var (xa, xao) := OverflowingSub(x, 1);
    var (xb, xbo) := OverflowingAdd(x, 1);
    var (ya, yao) := OverflowingSub(y, 1);
    var (yb, ybo) := OverflowingAdd(y, 1);

    v := [];
    assert v == IndicesUpTo(x, y, 0);
    if !xao {
      v := v + [GetIdx(xa, y)];
    }
    assert v == IndicesUpTo(x, y, 1);
    if !xbo {
      v := v + [GetIdx(xb, y)];
    }
    assert v == IndicesUpTo(x, y, 2);
    if !yao {
      v := v + [GetIdx(x, ya)];
    }
    assert v == IndicesUpTo(x, y, 3);
    if !ybo {
      v := v + [GetIdx(x, yb)];
    }
    assert v == IndicesUpTo(x, y, 4);
    if !xao && !yao {
      v := v + [GetIdx(xa, ya)];
    }
    assert v == IndicesUpTo(x, y, 5);
    if !xbo && !yao {
      v := v + [GetIdx(xb, ya)];
    }
    assert v == IndicesUpTo(x, y, 6);
    if !xao && !ybo {
      v := v + [GetIdx(xa, yb)];
    }
    assert v == IndicesUpTo(x, y, 7);
    if !xbo && !ybo {
      v := v + [GetIdx(xb, yb)];
    }
    assert v == IndicesUpTo(x, y, 8);
  }

  /** The neighbour count of `cell_generation_tick`: count the live cells
      among the candidate indices that lie inside the grid. */
  method CountLiveCandidates(cells: array<bool>, v: seq<nat>) returns (liveCount: nat)
    ensures liveCount == CountLive(cells[..], v)
  {
    liveCount := 0;
    for k := 0 to |v|
      invariant liveCount == CountLive(cells[..], v[..k])
    {
      var idx := v[k];
      assert v[..k + 1][..k] == v[..k];
      if idx < cells.Length {
        if cells[idx] {
          liveCount := liveCount + 1;
        }
      }
    }
    assert v[..|v|] == v;
  }

  /** One iteration of the `cell_generation_tick` loop: count the live
      candidates of cell `i` in the grid as it stands and rewrite cell `i`
      in place. */
  method SweepCell(a: array<bool>, i: nat)
    requires a.Length == CellCount && i < CellCount
    modifies a
    ensures a[..] == SweepStep(old(a[..]), i)
  {
    var (x, y) := GetXY(i);
    IndexRoundTrip(i);
    var v := PushCandidates(x, y);
    var liveCount := CountLiveCandidates(a, v);
    assert liveCount == LiveCount(a[..], i);

    var state := a[i];
    if state {
      if liveCount < 2 {
        a[i] := false;
      } else if liveCount > 3 {
        a[i] := false;
      }
    } else {
      if liveCount == 3 {
        a[i] := true;
      }
    }
    assert a[..] == old(a[..])[i := NextState(state, liveCount)];
  }

  /** `cell_generation_tick`: takes the grid by value, sweeps it in place
      in index order and returns it. */
  method CellGenerationTick(cells: seq<bool>) returns (next: seq<bool>)
    requires |cells| == CellCount
    ensures next == Tick(cells)
  {
    var a := new bool[CellCount](k requires 0 <= k < CellCount => cells[k]);
    assert a[..] == Partial(cells, 0);
    for i := 0 to CellCount
      invariant a[..] == Partial(cells, i)
    {
      SweepCell(a, i);
    }
    next := a[..];
  }
}
