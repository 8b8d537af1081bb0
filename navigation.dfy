/** The snapshot history and its cursor: the main loop keeps every
    generation computed so far in a vector, a cursor `skip_index` into it
    saying which one is shown, and a play flag. A timed tick and the Right
    and Left keys move the cursor or, at the newest snapshot, compute a new
    generation; Space toggles play. */
module Navigation {
  import opened Grid
  import opened Generation
  import opened Seeder

  /** Distance between two integers. */
  function Dist(a: int, b: int): nat {
    if a < b then b - a else a - b
  }

  /** `r` is a point of `[0, max]` nearest to `t`. */
  ghost predicate NearestIn(r: nat, max: nat, t: int) {
    r <= max && forall j: nat :: j <= max ==> Dist(r, t) <= Dist(j, t)
  }

  /** `get_next_skip_index`: the cursor moved by `dir`, clamped to
      `[0, max]`; it is the point of `[0, max]` nearest to `dir + i`. */
  function GetNextSkipIndex(dir: int, i: nat, max: nat): (r: nat)
    ensures NearestIn(r, max, dir + i)
  {
    var tv := dir + i;
    if tv < 0 then 0
    else if tv > max then max
    else tv
  }

  /** One step right or left from an in-range cursor moves by one, except
      that Left at 0 stays at 0 and Right at `max` stays at `max`. */
  lemma SkipIndexSteps(i: nat, max: nat)
    requires i <= max
    ensures GetNextSkipIndex(1, i, max) == if i < max then i + 1 else max
    ensures GetNextSkipIndex(-1, i, max) == if i > 0 then i - 1 else 0
  {
  }

  /** The snapshots, the cursor and the play flag of the main loop, with the
      snapshot limit as a parameter. */
  class History {
    var snapshots: seq<seq<bool>>
    var skipIndex: nat
    var shouldPlay: bool
    const limit: nat

    /** Never empty once seeded, at most `limit` snapshots, the cursor on a
        snapshot, and every snapshot a whole grid; the cursor then stays
        below the limit. */
    ghost predicate Valid()
      reads this
      ensures Valid() ==> skipIndex < limit
    {
      1 <= |snapshots| <= limit &&
      skipIndex < |snapshots| &&
      forall k :: 0 <= k < |snapshots| ==> |snapshots[k]| == CellCount
    }

    /** The snapshot the cursor shows: the lookup of the draw step, which
        cannot fail. */
    function Current(): (g: seq<bool>)
      reads this
      requires Valid()
      ensures |g| == CellCount
    {
      snapshots[skipIndex]
    }

    /** `after` is `before` with the tick of its newest snapshot pushed, and
        with the oldest snapshot dropped when that push went over the limit. */
    ghost predicate PushedTick(before: seq<seq<bool>>, after: seq<seq<bool>>)
      requires |before| > 0 && |before[|before| - 1]| == CellCount
    {
      var t := Tick(before[|before| - 1]);
      if |before| + 1 > limit then after == before[1..] + [t] else after == before + [t]
    }

    /** The start of the main loop: the seeded grid is the only snapshot,
        the cursor is on it, and the simulation is paused. */
    constructor (rng: nat -> bool, limit: nat)
      requires limit >= 1
      ensures Valid()
      ensures snapshots == [SeedGrid(rng)] && skipIndex == 0 && !shouldPlay
      ensures this.limit == limit
    {
      var seed := SeedCells(rng);
      this.limit := limit;
      snapshots := [seed];
      skipIndex := 0;
      shouldPlay := false;
    }

    /** Push the tick of the newest snapshot, evicting index 0 when over the
        limit; the cursor is not touched. */
    method PushTick()
      requires Valid()
      modifies this
      ensures Valid()
      ensures PushedTick(old(snapshots), snapshots)
      ensures skipIndex == old(skipIndex) && shouldPlay == old(shouldPlay)
    {
      var next := CellGenerationTick(snapshots[|snapshots| - 1]);
      snapshots := snapshots + [next];
      if |snapshots| > limit {
        snapshots := snapshots[1..];
      }
    }

    /** A timed tick: while playing, behind the newest snapshot the cursor
        moves on by one; at the newest snapshot a new generation is pushed
        and the cursor follows it. While paused nothing happens. */
    method PlayTick()
      requires Valid()
      modifies this
      ensures Valid()
      ensures shouldPlay == old(shouldPlay)
      ensures !old(shouldPlay) ==> snapshots == old(snapshots) && skipIndex == old(skipIndex)
      ensures old(shouldPlay) && old(skipIndex) < old(|snapshots|) - 1 ==>
                snapshots == old(snapshots) && skipIndex == old(skipIndex) + 1
      ensures old(shouldPlay) && old(skipIndex) == old(|snapshots|) - 1 ==>
                PushedTick(old(snapshots), snapshots) && skipIndex == |snapshots| - 1
    {
      if shouldPlay {
        if skipIndex < |snapshots| - 1 {
          skipIndex := skipIndex + 1;
        } else {
          PushTick();
          skipIndex := |snapshots| - 1;
        }
      }
    }

    /** The Right key: while paused, behind the newest snapshot the cursor
        moves on by one; at the newest snapshot a new generation is pushed but
        the cursor keeps its number, so it still shows the old newest snapshot,
        except when the push evicted one and the same number now names the new
        generation. While playing nothing happens. */
    method Right()
      requires Valid()
      modifies this
      ensures Valid()
      ensures shouldPlay == old(shouldPlay)
      ensures old(shouldPlay) ==> snapshots == old(snapshots) && skipIndex == old(skipIndex)
      ensures !old(shouldPlay) && old(skipIndex) < old(|snapshots|) - 1 ==>
                snapshots == old(snapshots) && skipIndex == old(skipIndex) + 1
      ensures !old(shouldPlay) && old(skipIndex) == old(|snapshots|) - 1 ==>
                PushedTick(old(snapshots), snapshots) && skipIndex == old(skipIndex) &&
                Current() == if old(|snapshots|) < limit then old(Current()) else Tick(old(Current()))
    {
      if !shouldPlay {
        var prev := skipIndex;
        skipIndex := GetNextSkipIndex(1, skipIndex, |snapshots| - 1);
        SkipIndexSteps(prev, |snapshots| - 1);
        if prev == skipIndex {
          PushTick();
        }
      }
    }

    /** The Left key: while paused the cursor moves back by one, staying at
        0; the snapshots never change. While playing nothing happens. */
    method Left()
      requires Valid()
      modifies this
      ensures Valid()
      ensures snapshots == old(snapshots) && shouldPlay == old(shouldPlay)
      ensures skipIndex == if old(shouldPlay) || old(skipIndex) == 0 then old(skipIndex)
                           else old(skipIndex) - 1
    {
      if !shouldPlay {
        SkipIndexSteps(skipIndex, |snapshots| - 1);
        skipIndex := GetNextSkipIndex(-1, skipIndex, |snapshots| - 1);
      }
    }

    /** The Space key: flip between playing and paused. */
    method Toggle()
      requires Valid()
      modifies this
      ensures Valid()
      ensures shouldPlay == !old(shouldPlay)
      ensures snapshots == old(snapshots) && skipIndex == old(skipIndex)
    {
      shouldPlay := !shouldPlay;
    }
  }

  /** Rewinding `n` steps with Left and replaying them with Right, while
      paused, brings back the same cursor and shows the same grid, and
      computes nothing new. */
  method RewindReplay(h: History, n: nat)
    requires h.Valid() && !h.shouldPlay && n <= h.skipIndex
    modifies h
    ensures h.Valid()
    ensures h.snapshots == old(h.snapshots) && h.skipIndex == old(h.skipIndex)
    ensures h.Current() == old(h.Current())
  {
    for k := 0 to n
      invariant h.Valid() && !h.shouldPlay
      invariant h.snapshots == old(h.snapshots) && h.skipIndex == old(h.skipIndex) - k
    {
      h.Left();
    }
    for k := 0 to n
      invariant h.Valid() && !h.shouldPlay
      invariant h.snapshots == old(h.snapshots) && h.skipIndex == old(h.skipIndex) - n + k
    {
      h.Right();
    }
  }
}
