// One pass over the bumpers before a deadline, against the best that any choice of them could have filled.

module BumperPass {
  import opened Schema
  import opened Playlist
  import opened Filling
  import opened AutomationState
  import opened Runs
  import opened Deadlines
  import opened Passing
  import opened DeadAir

  /**
   * A bumper is played with no delay around it and for exactly its stored duration, from a library that has
   * the same tracks; names and play counts may differ, and every play changes one.
   */
  predicate ExactBumper(r: Run, k: nat, library: Library)
    requires k < |r.envs| == |r.events| && |r.states| == |r.envs| + 1
  {
    && r.events[k].PlayedBumper? && Live(r.states[k].bumpers) != []
    && Overhead(r.envs[k]) == 0 && r.envs[k].playTime == r.events[k].item.duration
    && SameTracks(r.envs[k].library, library)
  }

  /** What repeated pops would still play from `s` up to `limit`. */
  function Fillable(s: State, library: Library, limit: int): int {
    Total(library, Fill(s.bumpers, library, limit - s.clock))
  }

  /** From `s` to `t` one bumper is popped with the time that is left up to `limit`, and played. */
  predicate PopsOne(s: State, t: State, library: Library, limit: int) {
    var pop := PopFit(s.bumpers, library, limit - s.clock);
    pop.item.Some? && t.bumpers == pop.ids && t.clock == s.clock + pop.item.value.duration
  }

  lemma BumperOutcome(c: Settings, mainshow: seq<int>, s: State, deadline: int, last: int,
                      e: Env, after: State, v: Event)
    requires Outcome(c, mainshow, s.bumpers, s.clock, deadline, last, e, after, v) && v.PlayedBumper?
    requires Overhead(e) == 0 && e.playTime == v.item.duration
    ensures PopsOne(s, after, e.library, last)
  {
  }

  lemma SamePopsOne(s: State, t: State, a: Library, b: Library, limit: int)
    requires SameTracks(a, b) && PopsOne(s, t, a, limit)
    ensures PopsOne(s, t, b, limit)
  {
    SamePop(s.bumpers, a, b, limit - s.clock);
  }

  /** An exact bumper step is one pop with the time that is left. */
  lemma BumperStepPops(r: Run, k: nat, library: Library)
    requires r.Quiet() && Waiting(r, k) && ExactBumper(r, k, library)
    ensures PopsOne(r.states[k], r.states[k + 1], library, LastEnd(r.c, r.states[k]))
  {
    var s, e, last := r.states[k], r.envs[k], LastEnd(r.c, r.states[k]);
    PassAt(r, k);
    BumperOutcome(r.c, s.mainshow, s, DueAt(r.c, s).value, last, e, r.states[k + 1], r.events[k]);
    SamePopsOne(s, r.states[k + 1], e.library, library, last);
  }

  lemma PopFills(s: State, t: State, library: Library, limit: int)
    requires PopsOne(s, t, library, limit)
    ensures Fillable(s, library, limit) == t.clock - s.clock + Fillable(t, library, limit)
    ensures t.clock <= limit
  {
  }

  /** Step `k` takes its own length off what is still fillable. */
  predicate Fills(r: Run, k: nat, library: Library, limit: int)
    requires k < |r.events| && |r.states| == |r.events| + 1
  {
    && Fillable(r.states[k], library, limit)
       == r.states[k + 1].clock - r.states[k].clock + Fillable(r.states[k + 1], library, limit)
    && r.states[k + 1].clock <= limit
  }

  lemma StepFills(r: Run, i: nat, k: nat, library: Library, limit: int)
    requires r.Quiet() && i <= k < |r.envs| && NoBlock(r, i, k + 1) && DueAt(r.c, r.states[i]).Some?
    requires limit == LastEnd(r.c, r.states[i]) && ExactBumper(r, k, library)
    ensures Fills(r, k, library, limit)
  {
    StillWaiting(r, i, k);
    SamePending(r, i, k);
    BumperStepPops(r, k, library);
    PopFills(r.states[k], r.states[k + 1], library, limit);
  }

  lemma {:induction false} FillsAddUp(r: Run, i: nat, k: nat, library: Library, limit: int)
    requires i <= k <= |r.events| && |r.states| == |r.events| + 1
    requires r.states[i].clock <= limit && forall j :: i <= j < k ==> Fills(r, j, library, limit)
    ensures Fillable(r.states[i], library, limit)
            == r.states[k].clock - r.states[i].clock + Fillable(r.states[k], library, limit)
    ensures r.states[k].clock <= limit
    decreases k - i
  {
    if i < k {
      FillsAddUp(r, i, k - 1, library, limit);
      assert Fills(r, k - 1, library, limit);
    }
  }

  /** Steps `i` to `k` play bumpers back to back, with the same block pending. */
  predicate Pass(r: Run, i: nat, k: nat, library: Library)
    requires i <= k <= |r.envs| == |r.events| && |r.states| == |r.envs| + 1
  {
    NoBlock(r, i, k) && DueAt(r.c, r.states[i]).Some? && forall j :: i <= j < k ==> ExactBumper(r, j, library)
  }

  /** A pass spends what a fill of the time left at its start spends, less what is still to come. */
  lemma BumpersFill(r: Run, i: nat, k: nat, library: Library)
    requires r.Quiet() && i <= k <= |r.envs| && Pass(r, i, k, library)
    requires r.states[i].clock <= LastEnd(r.c, r.states[i])
    ensures var limit := LastEnd(r.c, r.states[i]);
            && Fillable(r.states[i], library, limit)
               == r.states[k].clock - r.states[i].clock + Fillable(r.states[k], library, limit)
            && r.states[k].clock <= limit
  {
    var limit := LastEnd(r.c, r.states[i]);
    forall j | i <= j < k ensures Fills(r, j, library, limit) {
      StepFills(r, i, j, library, limit);
    }
    FillsAddUp(r, i, k, library, limit);
  }

  /** A choice of bumpers, listed longest first, that would end in time when played back to back from `s`. */
  predicate Rival(s: State, library: Library, limit: int, mask: seq<bool>) {
    && NonNegative(s.bumpers, library) && Descending(s.bumpers, library) && Selection(s.bumpers, library, mask)
    && SelectedTotal(s.bumpers, library, mask) <= limit - s.clock
  }

  lemma RivalInTime(s: State, library: Library, limit: int, mask: seq<bool>)
    requires Rival(s, library, limit, mask)
    ensures s.clock <= limit
  {
    EachWithinTotal(s.bumpers, library, mask);
  }

  lemma NothingFills(ids: seq<int>, library: Library, budget: int)
    requires TooLong(ids, library, budget)
    ensures Fill(ids, library, budget) == []
  {
  }

  /**
   * The bumper pass of a run is a 2-approximation: played back to back until none fits, bumpers that are
   * listed longest first fill at least half of the time that any selection of them could have filled
   * without passing deadline + gap, and do not pass it themselves.
   */
  lemma BumperPassIsHalfOptimal(r: Run, i: nat, k: nat, library: Library, mask: seq<bool>)
    requires r.Quiet() && i <= k <= |r.envs| && Pass(r, i, k, library)
    requires Rival(r.states[i], library, LastEnd(r.c, r.states[i]), mask)
    requires TooLong(r.states[k].bumpers, library, LastEnd(r.c, r.states[i]) - r.states[k].clock)
    ensures r.states[k].clock <= LastEnd(r.c, r.states[i])
    ensures SelectedTotal(r.states[i].bumpers, library, mask) <= 2 * (r.states[k].clock - r.states[i].clock)
  {
    var s, t, limit := r.states[i], r.states[k], LastEnd(r.c, r.states[i]);
    RivalInTime(s, library, limit, mask);
    BumpersFill(r, i, k, library);
    NothingFills(t.bumpers, library, limit - t.clock);
    GreedyIsHalfOptimal(s.bumpers, library, limit - s.clock, mask);
  }

  /** Step `k` plays nothing, draws nothing and has no delays before its readings of the clock. */
  predicate Stops(r: Run, k: nat, library: Library)
    requires k < |r.envs| == |r.events|
  {
    && !r.events[k].PlayedMain? && !r.events[k].DrewMainshow? && !r.events[k].PlayedBumper?
    && Overhead(r.envs[k]) == 0 && SameTracks(r.envs[k].library, library)
  }

  /** A step at which a pass stops runs a block, its deadline having come, or has nothing left that fits. */
  lemma StopsWhy(r: Run, k: nat, library: Library)
    requires r.Quiet() && k < |r.envs| && DueAt(r.c, r.states[k]).Some? && Stops(r, k, library)
    ensures r.events[k].RanBlock? ==> r.states[k].clock >= DueAt(r.c, r.states[k]).value
    ensures !r.events[k].RanBlock? ==>
              TooLong(r.states[k].bumpers, library, LastEnd(r.c, r.states[k]) - r.states[k].clock)
  {
    QuietStep(r, k);
    if !r.events[k].RanBlock? {
      var ids, left := r.states[k].bumpers, LastEnd(r.c, r.states[k]) - r.states[k].clock;
      SilentIff(r, k);
      if Live(ids) == [] {
        NoneLeft(ids, library, left);
      } else {
        TooLongForSame(ids, r.envs[k].library, library, left);
      }
    }
  }

  /**
   * However a pass ends, it ends in time, and either its deadline has come or it has filled at least half of
   * what any selection could: only a block that is already due cuts it off while something still fits.
   */
  lemma BumperPassEnds(r: Run, i: nat, k: nat, library: Library, mask: seq<bool>)
    requires r.Quiet() && i <= k < |r.envs| && Pass(r, i, k, library) && Stops(r, k, library)
    requires Rival(r.states[i], library, LastEnd(r.c, r.states[i]), mask)
    ensures r.states[k].clock <= LastEnd(r.c, r.states[i])
    ensures (r.events[k].RanBlock? && r.states[k].clock >= DueAt(r.c, r.states[i]).value)
            || SelectedTotal(r.states[i].bumpers, library, mask) <= 2 * (r.states[k].clock - r.states[i].clock)
  {
    RivalInTime(r.states[i], library, LastEnd(r.c, r.states[i]), mask);
    BumpersFill(r, i, k, library);
    SamePending(r, i, k);
    StopsWhy(r, k, library);
    if !r.events[k].RanBlock? {
      BumperPassIsHalfOptimal(r, i, k, library, mask);
    }
  }
}
