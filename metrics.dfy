/**
 The figures App derives from the list on every render: `total`,
 `completed`, `remaining` and the rounded `progress` percentage.
 */
module Metrics {
  import opened Habits

  /** `habits.length`. */
  function Total(hs: seq<Habit>): (n: nat)
    ensures n == 0 <==> hs == []
  {
    |hs|
  }

  /** `habits.filter((h) => h.done).length`: never more than the list holds. */
  function Completed(hs: seq<Habit>): (r: nat)
    ensures r <= Total(hs)
  {
    if hs == [] then 0 else (if hs[0].done then 1 else 0) + Completed(hs[1..])
  }

  /** `total - completed`: never negative, never more than the list holds. */
  function Remaining(hs: seq<Habit>): (r: int)
    ensures 0 <= r <= Total(hs)
  {
    Total(hs) - Completed(hs)
  }

  /**
   `Math.round((part / whole) * 100)` for a positive whole, and 0 for an empty
   one, in exact arithmetic: the integer nearest to 100 * part / whole, a tie
   going up.
   */
  function RoundedPercent(part: nat, whole: nat): (r: nat)
    ensures whole == 0 ==> r == 0
    ensures whole > 0 ==> 2 * whole * r <= 200 * part + whole < 2 * whole * (r + 1)
  {
    if whole == 0 then 0 else (200 * part + whole) / (2 * whole)
  }

  /** `progress`: the share of done entries as a percentage. */
  function Progress(hs: seq<Habit>): (r: nat)
    ensures r <= 100
    ensures Total(hs) == 0 ==> r == 0
    ensures Total(hs) > 0 && (forall i :: 0 <= i < |hs| ==> hs[i].done) ==> r == 100
  {
    PercentBounds(Completed(hs), Total(hs));
    CompletedAllDone(hs);
    RoundedPercent(Completed(hs), Total(hs))
  }

  // ----- counts -----

  /** The metric invariants: completed and remaining split the total. */
  lemma MetricsInvariant(hs: seq<Habit>)
    ensures 0 <= Completed(hs) <= Total(hs)
    ensures 0 <= Remaining(hs) <= Total(hs)
    ensures Completed(hs) + Remaining(hs) == Total(hs)
  {
  }

  /** Counting done entries distributes over concatenation. */
  lemma {:induction false} CompletedAppend(a: seq<Habit>, b: seq<Habit>)
    ensures Completed(a + b) == Completed(a) + Completed(b)
  {
    if a == [] {
      assert a + b == b;
    } else {
      assert (a + b)[1..] == a[1..] + b;
      CompletedAppend(a[1..], b);
    }
  }

  /** Every entry is done exactly when the done count is the total. */
  lemma {:induction false} CompletedAllDone(hs: seq<Habit>)
    ensures Completed(hs) == Total(hs) <==> forall i :: 0 <= i < |hs| ==> hs[i].done
  {
    if hs != [] {
      CompletedAllDone(hs[1..]);
      if forall i :: 0 <= i < |hs| ==> hs[i].done {
        assert forall i :: 0 <= i < |hs| - 1 ==> hs[1..][i].done;
      }
      if Completed(hs) == Total(hs) {
        forall i | 0 <= i < |hs| ensures hs[i].done {
          if i > 0 { assert hs[i] == hs[1..][i - 1]; }
        }
      }
    }
  }

  /** No entry is done exactly when the done count is zero. */
  lemma {:induction false} CompletedNoneDone(hs: seq<Habit>)
    ensures Completed(hs) == 0 <==> forall i :: 0 <= i < |hs| ==> !hs[i].done
  {
    if hs != [] {
      CompletedNoneDone(hs[1..]);
      if forall i :: 0 <= i < |hs| ==> !hs[i].done {
        assert forall i :: 0 <= i < |hs| - 1 ==> !hs[1..][i].done;
      }
      if Completed(hs) == 0 {
        forall i | 0 <= i < |hs| ensures !hs[i].done {
          if i > 0 { assert hs[i] == hs[1..][i - 1]; }
        }
      }
    }
  }

  /** Replacing the entry at k changes the count by what that entry contributes. */
  lemma {:induction false} CompletedUpdate(hs: seq<Habit>, k: nat, h: Habit)
    requires k < |hs|
    ensures Completed(hs[k := h]) ==
      Completed(hs) - (if hs[k].done then 1 else 0) + (if h.done then 1 else 0)
  {
    if k > 0 {
      assert hs[k := h][1..] == hs[1..][k - 1 := h];
      CompletedUpdate(hs[1..], k - 1, h);
    } else {
      assert hs[k := h][1..] == hs[1..];
    }
  }

  /** A successful add brings one more entry still to do and no more done ones. */
  lemma AddedMetrics(hs: seq<Habit>, input: string, id: int, colorIndex: PaletteIndex)
    ensures var r := Added(hs, input, id, colorIndex);
            Completed(r) == Completed(hs) &&
            Remaining(r) == Remaining(hs) + (if Text.IsBlank(input) then 0 else 1)
  {
    var r := Added(hs, input, id, colorIndex);
    if !Text.IsBlank(input) {
      assert r == hs + [r[|hs|]];
      CompletedAppend(hs, [r[|hs|]]);
      assert [r[|hs|]][1..] == [];
    }
  }

  /** With unique ids, toggling one entry moves it between done and to-do. */
  lemma ToggledMetrics(hs: seq<Habit>, k: nat)
    requires UniqueIds(hs) && k < |hs|
    ensures var r := Toggled(hs, hs[k].id);
            Completed(r) == Completed(hs) + (if hs[k].done then -1 else 1) &&
            Remaining(r) == Remaining(hs) + (if hs[k].done then 1 else -1)
  {
    ToggledUnique(hs, k);
    CompletedUpdate(hs, k, hs[k].(done := !hs[k].done));
  }

  /** Deleting never raises any of the three counts. */
  lemma {:induction false} DeletedMetrics(hs: seq<Habit>, id: int)
    ensures Total(Deleted(hs, id)) <= Total(hs)
    ensures Completed(Deleted(hs, id)) <= Completed(hs)
    ensures Remaining(Deleted(hs, id)) <= Remaining(hs)
  {
    if hs != [] {
      DeletedMetrics(hs[1..], id);
      var rest := Deleted(hs[1..], id);
      if hs[0].id != id {
        assert ([hs[0]] + rest)[1..] == rest;
      }
    }
  }

  // ----- progress -----

  /** The rounded percentage of a part of a whole lies in 0..100 and is 100 for the whole. */
  lemma PercentBounds(part: nat, whole: nat)
    requires part <= whole
    ensures RoundedPercent(part, whole) <= 100
    ensures 0 < whole == part ==> RoundedPercent(part, whole) == 100
  {
    if whole > 0 {
      var r := RoundedPercent(part, whole);
      assert 2 * whole * r <= 200 * part + whole <= 2 * whole * 100 + whole;
      if r > 100 {
        assert 2 * whole * r >= 2 * whole * 101 by {
          MulMonotone(2 * whole, 101, r);
        }
      }
      if part == whole {
        assert 2 * whole * 100 < 2 * whole * (r + 1);
        if r < 100 {
          MulMonotone(2 * whole, r + 1, 100);
        }
      }
    }
  }

  /** For a fixed total, more done entries never lower the percentage. */
  lemma PercentMonotone(part1: nat, part2: nat, whole: nat)
    requires part1 <= part2
    ensures RoundedPercent(part1, whole) <= RoundedPercent(part2, whole)
  {
    if whole > 0 {
      var r1, r2 := RoundedPercent(part1, whole), RoundedPercent(part2, whole);
      if r1 > r2 {
        MulMonotone(2 * whole, r2 + 1, r1);
        assert false;
      }
    }
  }

  lemma MulMonotone(a: nat, b: nat, c: nat)
    requires b <= c
    ensures a * b <= a * c
  {
  }
}
