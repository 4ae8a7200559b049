// Filling a time budget by repeated first-fit pops, and how good the result is.

module Filling {
  import opened Options
  import opened Schema
  import opened Playlist

  /** An id that a pop can return under some limit. */
  predicate HasRow(library: Library, id: int) {
    id != 0 && id in library && ColumnInt(id) != 0
  }

  predicate NonNegative(ids: seq<int>, library: Library) {
    forall k :: 0 <= k < |ids| && HasRow(library, ids[k]) ==> Duration(library, ids[k]) >= 0
  }

  /** Longest first, among the ids that have a row. */
  predicate Descending(ids: seq<int>, library: Library) {
    forall j, k :: 0 <= j < k < |ids| && HasRow(library, ids[j]) && HasRow(library, ids[k]) ==>
      Duration(library, ids[j]) >= Duration(library, ids[k])
  }

  /** Pop, spend, and rescan from the front with what is left of the budget, until nothing fits. */
  function Fill(ids: seq<int>, library: Library, budget: int): seq<int>
    decreases |Live(ids)|
  {
    var k := FirstFit(ids, library, budget, 0);
    if k.None? then []
    else
      LiveAfterBury(ids, k.value);
      var id := ids[k.value];
      [id] + Fill(ids[k.value := 0], library, budget - Duration(library, id))
  }

  /** One walk over the list that takes every id the remaining budget admits. */
  function Greedy(ids: seq<int>, library: Library, budget: int): seq<int> {
    if ids == [] then []
    else if Fits(library, ids[0], budget) then
      [ids[0]] + Greedy(ids[1..], library, budget - Duration(library, ids[0]))
    else Greedy(ids[1..], library, budget)
  }

  function Total(library: Library, ids: seq<int>): int {
    if ids == [] then 0
    else (if ids[0] in library then Duration(library, ids[0]) else 0) + Total(library, ids[1..])
  }

  /** After the pop at `p` nothing up to and including `p` fits the smaller budget. */
  lemma BuryKeepsPrefix(ids: seq<int>, library: Library, budget: int, p: nat, rest: int)
    requires p < |ids| && NonNegative(ids, library) && Fits(library, ids[p], budget)
    requires rest == budget - Duration(library, ids[p])
    requires forall k :: 0 <= k < p ==> !Fits(library, ids[k], budget)
    ensures NonNegative(ids[p := 0], library)
    ensures forall k :: 0 <= k < p ==> !Fits(library, ids[k], rest)
  {
  }

  lemma FillStep(ids: seq<int>, library: Library, budget: int, p: nat)
    requires p < |ids| && Fits(library, ids[p], budget)
    requires forall k :: 0 <= k < p ==> !Fits(library, ids[k], budget)
    ensures Fill(ids, library, budget) ==
            [ids[p]] + Fill(ids[p := 0], library, budget - Duration(library, ids[p]))
  {
  }

  lemma {:induction false} FillFrom(ids: seq<int>, library: Library, budget: int, p: nat)
    requires p <= |ids| && NonNegative(ids, library)
    requires forall k :: 0 <= k < p ==> !Fits(library, ids[k], budget)
    ensures Fill(ids, library, budget) == Greedy(ids[p..], library, budget)
    decreases |ids| - p
  {
    if p == |ids| {
      assert FirstFit(ids, library, budget, 0).None?;
    } else if Fits(library, ids[p], budget) {
      FillStep(ids, library, budget, p);
      BuryKeepsPrefix(ids, library, budget, p, budget - Duration(library, ids[p]));
      assert ids[p := 0][p + 1..] == ids[p..][1..];
      FillFrom(ids[p := 0], library, budget - Duration(library, ids[p]), p + 1);
    } else {
      assert ids[p..][1..] == ids[p + 1..];
      FillFrom(ids, library, budget, p + 1);
    }
  }

  /** Rescanning after every pop finds what one greedy walk finds. */
  lemma FillIsGreedy(ids: seq<int>, library: Library, budget: int)
    requires NonNegative(ids, library)
    ensures Fill(ids, library, budget) == Greedy(ids, library, budget)
  {
    FillFrom(ids, library, budget, 0);
    assert ids[0..] == ids;
  }

  lemma {:induction false} GreedyWithinBudget(ids: seq<int>, library: Library, budget: int)
    requires budget >= 0
    ensures Total(library, Greedy(ids, library, budget)) <= budget
  {
    if ids != [] {
      if Fits(library, ids[0], budget) {
        GreedyWithinBudget(ids[1..], library, budget - Duration(library, ids[0]));
      } else {
        GreedyWithinBudget(ids[1..], library, budget);
      }
    }
  }

  // ---- Against the best selection ------------------------------------------------------------

  /** A selection marks positions whose ids have rows. */
  predicate Selection(ids: seq<int>, library: Library, mask: seq<bool>) {
    |mask| == |ids| && forall k :: 0 <= k < |ids| && mask[k] ==> HasRow(library, ids[k])
  }

  function SelectedTotal(ids: seq<int>, library: Library, mask: seq<bool>): int
    requires Selection(ids, library, mask)
  {
    if ids == [] then 0
    else (if mask[0] then Duration(library, ids[0]) else 0) + SelectedTotal(ids[1..], library, mask[1..])
  }

  lemma {:induction false} EachWithinTotal(ids: seq<int>, library: Library, mask: seq<bool>)
    requires Selection(ids, library, mask) && NonNegative(ids, library)
    ensures 0 <= SelectedTotal(ids, library, mask)
    ensures forall k :: 0 <= k < |ids| && mask[k] ==> Duration(library, ids[k]) <= SelectedTotal(ids, library, mask)
  {
    if ids != [] {
      EachWithinTotal(ids[1..], library, mask[1..]);
      forall k | 0 <= k < |ids| && mask[k]
        ensures Duration(library, ids[k]) <= SelectedTotal(ids, library, mask)
      {
        if k > 0 {
          assert ids[k] == ids[1..][k - 1] && mask[k] == mask[1..][k - 1];
        }
      }
    }
  }

  lemma {:induction false} GreedyNonNegative(ids: seq<int>, library: Library, budget: int)
    requires NonNegative(ids, library)
    ensures 0 <= Total(library, Greedy(ids, library, budget))
  {
    if ids != [] {
      var rest := ids[1..];
      assert forall k :: 0 <= k < |rest| ==> rest[k] == ids[k + 1];
      GreedyNonNegative(rest, library, budget);
      if Fits(library, ids[0], budget) {
        GreedyNonNegative(rest, library, budget - Duration(library, ids[0]));
      }
    }
  }

  lemma GreedyTake(ids: seq<int>, library: Library, budget: int)
    requires ids != [] && Fits(library, ids[0], budget)
    ensures var d := Duration(library, ids[0]);
            Total(library, Greedy(ids, library, budget)) == d + Total(library, Greedy(ids[1..], library, budget - d))
  {
  }

  /** Either the greedy walk spends more than half the budget, or it takes everything that fits at all. */
  lemma {:induction false} HalfOrEverything(ids: seq<int>, library: Library, budget: int, mask: seq<bool>)
    requires NonNegative(ids, library) && Descending(ids, library)
    requires Selection(ids, library, mask)
    requires forall k :: 0 <= k < |ids| && mask[k] ==> Duration(library, ids[k]) <= budget
    ensures var total := Total(library, Greedy(ids, library, budget));
            2 * total > budget || SelectedTotal(ids, library, mask) <= total
  {
    if ids != [] {
      var rest, left := ids[1..], mask[1..];
      assert forall k :: 0 <= k < |rest| ==> rest[k] == ids[k + 1] && left[k] == mask[k + 1];
      assert NonNegative(rest, library) && Descending(rest, library) && Selection(rest, library, left);
      if !Fits(library, ids[0], budget) {
        HalfOrEverything(rest, library, budget, left);
      } else {
        var d := Duration(library, ids[0]);
        GreedyTake(ids, library, budget);
        GreedyNonNegative(rest, library, budget - d);
        if forall k :: 0 <= k < |rest| && left[k] ==> Duration(library, rest[k]) <= budget - d {
          HalfOrEverything(rest, library, budget - d, left);
        }
      }
    }
  }

  /**
   * Greedy filling is a 2-approximation: longest-first over durations of at least 0, it never exceeds the
   * budget and reaches at least half of what any selection within the budget reaches.
   */
  lemma GreedyIsHalfOptimal(ids: seq<int>, library: Library, budget: int, mask: seq<bool>)
    requires NonNegative(ids, library) && Descending(ids, library)
    requires Selection(ids, library, mask) && SelectedTotal(ids, library, mask) <= budget
    ensures var total := Total(library, Fill(ids, library, budget));
            total <= budget && SelectedTotal(ids, library, mask) <= 2 * total
  {
    EachWithinTotal(ids, library, mask);
    HalfOrEverything(ids, library, budget, mask);
    GreedyWithinBudget(ids, library, budget);
    FillIsGreedy(ids, library, budget);
  }

  function TightLibrary(k: nat): Library {
    map[1 := ItemRow(None, Some(k + 1), None, None),
        2 := ItemRow(None, Some(k), None, None),
        3 := ItemRow(None, Some(k), None, None)]
  }

  lemma TightFill(k: nat)
    requires 1 <= k < INT_HALF - 1
    ensures Fill([1, 2, 3], TightLibrary(k), 2 * k) == [1]
  {
  }

  /**
   * The factor 2 cannot be improved: with one track of k + 1 seconds and two of k, a budget of 2k is filled
   * for only k + 1 seconds, although the two shorter tracks would fill all of it.
   */
  lemma FactorIsTight(k: nat)
    requires 1 <= k < INT_HALF - 1
    ensures var library, ids, mask := TightLibrary(k), [1, 2, 3], [false, true, true];
            && NonNegative(ids, library) && Descending(ids, library) && Selection(ids, library, mask)
            && SelectedTotal(ids, library, mask) == 2 * k
            && Total(library, Fill(ids, library, 2 * k)) == k + 1
  {
    var library, ids, mask := TightLibrary(k), [1, 2, 3], [false, true, true];
    TightFill(k);
    assert [1][1..] == [];
    assert ids[1..] == [2, 3] && [2, 3][1..] == [3];
    assert mask[1..] == [true, true] && [true, true][1..] == [true];
    assert SelectedTotal([3], library, [true]) == k;
    assert SelectedTotal([2, 3], library, [true, true]) == 2 * k;
  }
}
