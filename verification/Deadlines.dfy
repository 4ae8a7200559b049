// Whole-run theorems about deadlines: how late a block can start, how often it runs, and when the
// search is stuck.

module Deadlines {
  import opened Options
  import opened LocalTime
  import opened AdvanceFold
  import opened Requirements
  import opened RequirementEngine
  import opened AutomationState
  import opened Runs

  // ---- Bounded lateness ----------------------------------------------------------------------

  /** The step's own delays add up to at most `slack`, and nothing plays longer than its stored duration. */
  predicate Timely(v: Event, e: Env, slack: nat) {
    && Overhead(e) <= slack
    && match v
       case PlayedMain(item) => e.playTime <= Max(0, item.duration)
       case PlayedBumper(item) => e.playTime <= Max(0, item.duration)
       case _ => true
  }

  lemma MainshowStepInTime(c: Settings, s: State, next: Next, e: Env, slack: nat)
    requires s.clock + e.dMain + e.dCutoff + e.dBumper + e.dLeft + e.dEnd <= next.deadline + slack
    requires match MainshowStep(c, s, next, e).event
             case PlayedMain(item) => e.playTime <= Max(0, item.duration)
             case PlayedBumper(item) => e.playTime <= Max(0, item.duration)
             case _ => true
    requires e.dEnd <= slack
    ensures MainshowStep(c, s, next, e).state.clock <= next.deadline + Max(0, next.gap) + slack
  {
  }

  predicate NoBlock(r: Run, i: nat, k: nat)
    requires i <= k <= |r.envs| == |r.events|
  {
    forall j :: i <= j < k ==> !r.events[j].RanBlock?
  }

  /** While no block runs, the internal time stands still and the clock does not go back. */
  lemma {:induction false} PendingFixed(r: Run, i: nat, k: nat)
    requires r.Quiet() && i <= k <= |r.envs| && NoBlock(r, i, k)
    ensures r.states[k].internal == r.states[i].internal && r.states[k].schedule == r.states[i].schedule
    ensures r.states[i].clock <= r.states[k].clock
    decreases k - i
  {
    if i < k {
      PendingFixed(r, i, k - 1);
      QuietStep(r, k - 1);
    }
  }

  /** One step that passes time before the deadline ends no later than the deadline plus its gap. */
  lemma StepInTime(r: Run, k: nat, slack: nat)
    requires r.Quiet() && k < |r.envs| && !r.events[k].RanBlock?
    requires Timely(r.events[k], r.envs[k], slack)
    requires DueAt(r.c, r.states[k]).Some?
    ensures r.states[k + 1].clock <= DueAt(r.c, r.states[k]).value + Max(0, GapAt(r.c, r.states[k])) + slack
    ensures r.states[k + 1].internal == r.states[k].internal && r.states[k + 1].schedule == r.states[k].schedule
  {
    var s, e := r.states[k], r.envs[k];
    assert r.StepAt(k);
    QuietAt(r, k);
    SearchIs(r.c, s, e);
    PassEffect(r.c, s, e);
    MainshowStepInTime(r.c, AtTest(s, e), Search(r.c, s, e), e, slack);
  }

  /**
   * Bounded lateness: from any step `i` at which the clock is not past the pending deadline (or within
   * the bound already), as long as no block runs, every later step of a quiet run sees the same deadline
   * and begins no later than deadline + gap + slack. The block then run is the one pending at `i`, never
   * early, and it starts at most one more step's delays late.
   */
  lemma {:induction false} BoundedLateness(r: Run, slack: nat, i: nat, k: nat)
    requires r.Quiet() && i <= k <= |r.envs| && NoBlock(r, i, k)
    requires forall j :: i <= j <= k && j < |r.envs| ==> Timely(r.events[j], r.envs[j], slack)
    requires DueAt(r.c, r.states[i]).Some?
    requires r.states[i].clock <= DueAt(r.c, r.states[i]).value + Max(0, GapAt(r.c, r.states[i])) + slack
    ensures var d, gap := DueAt(r.c, r.states[i]).value, GapAt(r.c, r.states[i]);
            && DueAt(r.c, r.states[k]) == Some(d) && BlockAt(r.c, r.states[k]) == BlockAt(r.c, r.states[i])
            && r.states[k].clock <= d + Max(0, gap) + slack
            && (k < |r.envs| && r.events[k].RanBlock? ==>
                  && r.events[k].deadline == d && r.events[k].block == BlockAt(r.c, r.states[i])
                  && d <= r.events[k].start <= d + Max(0, gap) + 2 * slack)
    decreases k - i
  {
    if i < k {
      BoundedLateness(r, slack, i, k - 1);
      StepInTime(r, k - 1, slack);
    }
    if k < |r.envs| {
      QuietStep(r, k);
      assert Timely(r.events[k], r.envs[k], slack);
    }
  }

  // ---- Monotone time -------------------------------------------------------------------------

  lemma GoesForward(r: Run, k: nat)
    requires r.Quiet() && k < |r.envs|
    ensures r.states[k].internal <= r.states[k + 1].internal && r.states[k].clock <= r.states[k + 1].clock
    ensures r.states[k + 1].schedule == r.states[k].schedule
  {
    QuietStep(r, k);
  }

  /** In a quiet run the internal time never goes back, not even across steps that run blocks. */
  lemma {:induction false} InternalMonotone(r: Run, i: nat, k: nat)
    requires r.Quiet() && i <= k <= |r.envs|
    ensures r.states[i].internal <= r.states[k].internal && r.states[i].clock <= r.states[k].clock
    ensures r.states[k].schedule == r.states[i].schedule
    decreases k - i
  {
    if i < k {
      InternalMonotone(r, i, k - 1);
      GoesForward(r, k - 1);
    }
  }

  /**
   * Blocks run in order: a later block's deadline is never before an earlier one's, none is run for an
   * instant before the internal time, and none before its own deadline.
   */
  lemma BlocksInOrder(r: Run, i: nat, k: nat)
    requires r.Quiet() && i <= k < |r.envs|
    requires r.events[i].RanBlock? && r.events[k].RanBlock? && r.events[i].block != [] && r.events[k].block != []
    ensures r.events[i].deadline <= r.events[k].deadline <= r.events[k].start
    ensures r.states[k].internal <= r.events[k].deadline
  {
    QuietStep(r, i);
    QuietStep(r, k);
    InternalMonotone(r, i, k);
    ScheduleAt(r, i);
    ScheduleAt(r, k);
    PendingMonotone(r.c.engine, r.states[0].schedule, r.states[i].internal, r.states[k].internal);
  }

  // ---- No instant is lost --------------------------------------------------------------------

  function BlockDueAt(r: Run, t: int): seq<Requirement>
    requires r.states != []
  {
    DueBlock(Effective(r.c.engine, r.states[0].schedule), t, r.c.engine.offset)
  }

  /** Step `j` ran everything that is due at `t`. */
  predicate RanFor(r: Run, j: nat, t: int)
    requires j < |r.events| && r.states != []
  {
    r.events[j].RanBlock? && r.events[j].deadline == t && r.events[j].block == BlockDueAt(r, t)
  }

  /** Step `j` ran an earlier block, whose advance carried the internal time past `t`. */
  predicate JumpedOver(r: Run, j: nat, t: int)
    requires j < |r.events| && |r.states| == |r.events| + 1
  {
    && r.events[j].RanBlock? && r.events[j].block != [] && r.events[j].deadline < t
    && r.states[j].internal <= t < r.states[j + 1].internal
  }

  lemma PassedInOneStep(r: Run, k: nat, t: int)
    requires r.Quiet() && k < |r.envs| && BlockDueAt(r, t) != []
    requires r.states[k].internal <= t < r.states[k + 1].internal
    ensures RanFor(r, k, t) || JumpedOver(r, k, t)
  {
    ScheduleAt(r, k);
    QuietStep(r, k);
  }

  /**
   * Nothing that is due gets lost in a quiet run, except in one way: every due instant from the internal
   * time on is still ahead, or was run as a block of its own, or was jumped over by the advance of an
   * earlier block.
   */
  lemma {:induction false} NoInstantIsLost(r: Run, i: nat, k: nat, t: int)
    requires r.Quiet() && i <= k <= |r.envs| && BlockDueAt(r, t) != [] && r.states[i].internal <= t
    ensures r.states[k].internal <= t || exists j :: i <= j < k && (RanFor(r, j, t) || JumpedOver(r, j, t))
    decreases k - i
  {
    if i < k {
      NoInstantIsLost(r, i, k - 1, t);
      if r.states[k - 1].internal <= t < r.states[k].internal {
        PassedInOneStep(r, k - 1, t);
      } else if r.states[k - 1].internal > t {
        InternalMonotone(r, k - 1, k);
      }
    }
  }

  /** No instant is both run and jumped over. */
  lemma RunOrJumped(r: Run, j: nat, l: nat, t: int)
    requires r.Quiet() && j < |r.envs| && l < |r.envs| && BlockDueAt(r, t) != []
    ensures !(RanFor(r, j, t) && JumpedOver(r, l, t))
  {
    if RanFor(r, j, t) && JumpedOver(r, l, t) {
      if j < l {
        BlocksInOrder(r, j, l);
      } else if l < j {
        InternalMonotone(r, l + 1, j);
        BlocksInOrder(r, j, j);
      }
    }
  }

  /** A due instant that has been left behind was run if and only if no block jumped over it. */
  lemma RunIffNotJumped(r: Run, i: nat, k: nat, t: int)
    requires r.Quiet() && i <= k <= |r.envs| && BlockDueAt(r, t) != []
    requires r.states[i].internal <= t < r.states[k].internal
    ensures (exists j :: i <= j < k && RanFor(r, j, t)) <==> !exists j :: i <= j < k && JumpedOver(r, j, t)
  {
    NoInstantIsLost(r, i, k, t);
    forall j, l | i <= j < k && i <= l < k ensures !(RanFor(r, j, t) && JumpedOver(r, l, t)) {
      RunOrJumped(r, j, l, t);
    }
  }

  /** With advances of at most a second nothing can be jumped over, so every due instant left behind was run. */
  lemma {:induction false} ShortAdvancesLoseNothing(r: Run, i: nat, k: nat, t: int)
    requires r.Quiet() && i <= k <= |r.envs| && BlockDueAt(r, t) != []
    requires forall q :: q in Effective(r.c.engine, r.states[0].schedule) ==> 0 <= q.advance <= 1
    requires r.states[i].internal <= t < r.states[k].internal
    ensures exists j :: i <= j < k && RanFor(r, j, t)
  {
    NoInstantIsLost(r, i, k, t);
    var j :| i <= j < k && (RanFor(r, j, t) || JumpedOver(r, j, t));
    if JumpedOver(r, j, t) {
      ShortAdvance(r, j);
    }
  }

  lemma ShortAdvance(r: Run, k: nat)
    requires r.Quiet() && k < |r.envs| && r.events[k].RanBlock?
    requires forall q :: q in Effective(r.c.engine, r.states[0].schedule) ==> 0 <= q.advance <= 1
    ensures r.states[k + 1].internal <= Max(r.events[k].deadline, r.states[k].internal) + 1
    ensures r.events[k].block != [] ==> r.states[k].internal <= r.events[k].deadline
  {
    var block := r.events[k].block;
    ScheduleAt(r, k);
    QuietStep(r, k);
    if DueAt(r.c, r.states[k]).Some? {
      DueBlockFilters(Effective(r.c.engine, r.states[0].schedule), [], r.events[k].deadline, r.c.engine.offset);
    }
    forall j | 0 <= j < |block| ensures 0 <= Advances(block)[j] <= 1 {
      assert block[j] in block;
    }
    NoNegative(Advances(block));
  }

  // ---- Exact re-run count --------------------------------------------------------------------

  /** How many of the steps from `i` to `k` ran the block due at `d`. */
  function TimesRun(r: Run, i: nat, k: nat, d: int): nat
    requires i <= k <= |r.envs| == |r.events|
    decreases k
  {
    if i == k then 0
    else
      var v := r.events[k - 1];
      TimesRun(r, i, k - 1, d) + if v.RanBlock? && v.block != [] && v.deadline == d then 1 else 0
  }

  /** With internal time `i`, deadline `d` and advance `a`, the runs it takes to get past `d`. */
  function Reruns(i: int, d: int, a: int): (n: nat)
    requires i <= d && a >= 1
    ensures n >= 1
  {
    (d - i) / a + 1
  }

  lemma RerunsBound(i: int, d: int, a: int, m: nat)
    requires i <= d && a >= 1
    ensures m < Reruns(i, d, a) <==> i + m * a <= d
  {
    var q, rem := (d - i) / a, (d - i) % a;
    assert d - i == q * a + rem;
    if m <= q {
      assert m * a <= q * a;
    } else {
      assert m * a >= (q + 1) * a;
    }
  }

  /** At state `i` the block due at `d` is pending, and its advances fold to `a`. */
  predicate PendingBlock(r: Run, i: nat, d: int, a: int)
    requires i < |r.states|
  {
    DueAt(r.c, r.states[i]) == Some(d) && Fold(Advances(BlockAt(r.c, r.states[i]))) == a
  }

  /** Short of `d`, the internal time has advanced once per run since `i`; in the end it is past `d`. */
  predicate Progress(r: Run, i: nat, k: nat, d: int, a: int)
    requires |r.envs| == |r.events| && |r.states| == |r.envs| + 1
    requires i <= k <= |r.envs| && r.states[i].internal <= d && a >= 1
  {
    var m, n := TimesRun(r, i, k, d), Reruns(r.states[i].internal, d, a);
    if m < n then r.states[k].internal == r.states[i].internal + m * a else m == n && r.states[k].internal > d
  }

  /** Between the internal time at `i` and the deadline the search finds what it found at `i`. */
  lemma SearchStays(r: Run, i: nat, k: nat)
    requires r.Quiet() && i <= k <= |r.envs| && DueAt(r.c, r.states[i]).Some?
    requires r.states[i].internal <= r.states[k].internal <= DueAt(r.c, r.states[i]).value
    ensures DueAt(r.c, r.states[k]) == DueAt(r.c, r.states[i])
    ensures BlockAt(r.c, r.states[k]) == BlockAt(r.c, r.states[i])
  {
    ScheduleAt(r, i);
    ScheduleAt(r, k);
    PendingAfter(r.c.engine, r.states[0].schedule, r.states[i].internal, r.states[k].internal);
  }

  /** Past the deadline no block due at it is run any more. */
  lemma NotRunAgain(r: Run, i: nat, k: nat, d: int)
    requires r.Quiet() && i <= k < |r.envs| && r.states[k].internal > d
    ensures TimesRun(r, i, k + 1, d) == TimesRun(r, i, k, d)
  {
    QuietStep(r, k);
  }

  /** Up to the deadline a step either passes time or runs the block and advances by `a`. */
  lemma AdvanceOnce(r: Run, i: nat, k: nat, d: int, a: int)
    requires r.Quiet() && i <= k < |r.envs| && PendingBlock(r, i, d, a) && a >= 1
    requires r.states[i].internal <= r.states[k].internal <= d
    ensures var more := TimesRun(r, i, k + 1, d) - TimesRun(r, i, k, d);
            0 <= more <= 1 && r.states[k + 1].internal == r.states[k].internal + more * a
  {
    SearchStays(r, i, k);
    QuietStep(r, k);
  }

  /** The arithmetic of one step: `x` is `m` advances past `i`, and the step adds `more` of them. */
  lemma ProgressBound(i: int, d: int, a: int, m: nat, x: int, more: nat)
    requires i <= d && a >= 1 && x == i + m * a && x <= d && more <= 1
    ensures m + more <= Reruns(i, d, a)
    ensures x + more * a == i + (m + more) * a
    ensures x + more * a > d <==> m + more == Reruns(i, d, a)
  {
    RerunsBound(i, d, a, m);
    RerunsBound(i, d, a, m + 1);
    assert (m + 1) * a == m * a + a;
  }

  lemma CountStep(r: Run, i: nat, k: nat, d: int, a: int)
    requires r.Quiet() && i <= k < |r.envs| && PendingBlock(r, i, d, a) && a >= 1
    requires Progress(r, i, k, d, a)
    ensures Progress(r, i, k + 1, d, a)
  {
    var start, m := r.states[i].internal, TimesRun(r, i, k, d);
    InternalMonotone(r, i, k);
    if m < Reruns(start, d, a) {
      RerunsBound(start, d, a, m);
      AdvanceOnce(r, i, k, d, a);
      ProgressBound(start, d, a, m, r.states[k].internal, TimesRun(r, i, k + 1, d) - m);
    } else {
      InternalMonotone(r, k, k + 1);
      NotRunAgain(r, i, k, d);
    }
  }

  /**
   * From any state on, a block with a fixed advance `a` is run floor((d - internal) / a) + 1 times: never
   * more in any quiet run, and until it has been run that often the search stays at it.
   */
  lemma {:induction false} ExactReruns(r: Run, i: nat, k: nat, d: int, a: int)
    requires r.Quiet() && i <= k <= |r.envs| && PendingBlock(r, i, d, a) && a >= 1
    ensures Progress(r, i, k, d, a)
    ensures TimesRun(r, i, k, d) < Reruns(r.states[i].internal, d, a) ==>
              DueAt(r.c, r.states[k]) == Some(d) && BlockAt(r.c, r.states[k]) == BlockAt(r.c, r.states[i])
    decreases k
  {
    if k == i {
      RerunsBound(r.states[i].internal, d, a, 0);
    } else {
      ExactReruns(r, i, k - 1, d, a);
      CountStep(r, i, k - 1, d, a);
      RerunsBound(r.states[i].internal, d, a, TimesRun(r, i, k, d));
      if TimesRun(r, i, k, d) < Reruns(r.states[i].internal, d, a) {
        InternalMonotone(r, i, k);
        SearchStays(r, i, k);
      }
    }
  }

  /** Once the deadline has come, each step runs the block until it has been run often enough. */
  lemma RunsWhileDue(r: Run, i: nat, k: nat, d: int, a: int)
    requires r.Quiet() && i <= k < |r.envs| && r.states[i].clock >= d && PendingBlock(r, i, d, a) && a >= 1
    ensures TimesRun(r, i, k + 1, d) ==
            TimesRun(r, i, k, d) + if TimesRun(r, i, k, d) < Reruns(r.states[i].internal, d, a) then 1 else 0
  {
    ExactReruns(r, i, k, d, a);
    InternalMonotone(r, i, k);
    if TimesRun(r, i, k, d) < Reruns(r.states[i].internal, d, a) {
      QuietStep(r, k);
    } else {
      NotRunAgain(r, i, k, d);
    }
  }

  /** So the re-runs are consecutive steps, and there are exactly that many. */
  lemma {:induction false} RerunsAreConsecutive(r: Run, i: nat, k: nat, d: int, a: int)
    requires r.Quiet() && i <= k <= |r.envs| && r.states[i].clock >= d && PendingBlock(r, i, d, a) && a >= 1
    ensures TimesRun(r, i, k, d) ==
            if k - i < Reruns(r.states[i].internal, d, a) then k - i else Reruns(r.states[i].internal, d, a)
    decreases k
  {
    if k > i {
      RerunsAreConsecutive(r, i, k - 1, d, a);
      RunsWhileDue(r, i, k - 1, d, a);
    }
  }

  /** A block whose advances fold to 0 is run by every step from then on: the search never leaves it. */
  lemma {:induction false} ZeroAdvanceLoops(r: Run, i: nat, k: nat)
    requires r.Quiet() && i <= k < |r.envs|
    requires DueAt(r.c, r.states[i]).Some? && r.states[i].clock >= DueAt(r.c, r.states[i]).value
    requires Fold(Advances(BlockAt(r.c, r.states[i]))) == 0
    ensures r.events[k].RanBlock? && r.events[k].block == BlockAt(r.c, r.states[i])
    ensures r.states[k + 1].internal == r.states[i].internal
    decreases k
  {
    if k > i {
      ZeroAdvanceLoops(r, i, k - 1);
    }
    InternalMonotone(r, i, k);
    QuietStep(r, k);
  }

  // ---- Override ------------------------------------------------------------------------------

  /** If the step runs a block at all, the block asks for the wall-clock time. */
  predicate AsksForClock(v: Event) {
    v.RanBlock? && v.block != [] ==> Fold(Advances(v.block)) < 0
  }

  lemma InternalBehindClockStep(c: Settings, s: State, e: Env)
    requires AsksForClock(Step(c, s, e).event) && s.internal <= s.clock
    ensures var t := Step(c, s, e).state;
            s.internal <= t.internal <= t.clock && t.schedule == s.schedule
  {
    OverrideEffect(s, e);
    BlockEffect(c, s, e);
    SearchIs(c, s, e);
    if !Step(c, s, e).event.RanBlock? {
      PassEffect(c, s, e);
    }
  }

  /**
   * As long as every block that is run folds to a negative advance, the internal time never runs ahead of the
   * clock, and it never goes back, whatever a human in control does in between.
   */
  lemma {:induction false} InternalBehindClock(r: Run, i: nat, k: nat)
    requires r.Valid() && i <= k <= |r.envs|
    requires forall j :: i <= j < k ==> AsksForClock(r.events[j])
    requires r.states[i].internal <= r.states[i].clock
    ensures r.states[i].internal <= r.states[k].internal <= r.states[k].clock
    decreases k - i
  {
    if i < k {
      InternalBehindClock(r, i, k - 1);
      assert r.StepAt(k - 1) && AsksForClock(r.events[k - 1]);
      InternalBehindClockStep(r.c, r.states[k - 1], r.envs[k - 1]);
    }
  }

  /** Every requirement asks for the wall-clock time, which is the default. */
  predicate AllWallClock(c: Settings, schedule: seq<Requirement>) {
    forall q :: q in Effective(c.engine, schedule) ==> q.advance < 0
  }

  lemma WallClockBlock(c: Settings, s: State)
    requires DueAt(c, s).Some? && AllWallClock(c, s.schedule)
    ensures Fold(Advances(BlockAt(c, s))) == -1
  {
    DueBlockFilters(Effective(c.engine, s.schedule), [], DueAt(c, s).value, c.engine.offset);
    var block := BlockAt(c, s);
    forall k | 0 <= k < |block| ensures Advances(block)[k] < 0 {
      assert block[k] in block;
    }
    AllNegative(Advances(block));
  }

  lemma {:induction false} ScheduleKept(r: Run, k: nat)
    requires r.Valid() && k <= |r.envs|
    ensures r.states[k].schedule == r.states[0].schedule
  {
    if k > 0 {
      ScheduleKept(r, k - 1);
      KeptByStep(r, k - 1);
    }
  }

  /** With the default advance throughout, every block asks for the wall-clock time. */
  lemma WallClockSchedule(r: Run, k: nat)
    requires r.Valid() && k < |r.envs| && AllWallClock(r.c, r.states[0].schedule)
    ensures AsksForClock(r.events[k])
  {
    ScheduleKept(r, k);
    assert r.StepAt(k);
    var s, e := r.states[k], r.envs[k];
    OverrideEffect(s, e);
    BlockEffect(r.c, s, e);
    SearchIs(r.c, s, e);
    if DueAt(r.c, AfterOverride(s, e)).Some? {
      WallClockBlock(r.c, AfterOverride(s, e));
    }
  }

  // ---- When anything is run at all -----------------------------------------------------------

  /** When step `k` tests its deadline. */
  function TestRead(r: Run, k: nat): int
    requires k < |r.envs| && k < |r.states|
  {
    r.states[k].clock + r.envs[k].dFill + r.envs[k].dTest
  }

  lemma {:induction false} FirstBlock(r: Run, i: nat, k: nat) returns (j: nat)
    requires i <= k < |r.envs| == |r.events| && r.events[k].RanBlock?
    ensures i <= j <= k && r.events[j].RanBlock? && NoBlock(r, i, j)
    decreases k
  {
    if NoBlock(r, i, k) {
      j := k;
    } else {
      var b :| i <= b < k && r.events[b].RanBlock?;
      j := FirstBlock(r, i, b);
    }
  }

  /** The first step to run a block does so because the pending deadline has come. */
  lemma FirstBlockIsDue(r: Run, i: nat, k: nat)
    requires r.Quiet() && i <= k < |r.envs| && NoBlock(r, i, k) && r.envs[k].dTest < DEFAULT_WAIT
    ensures r.events[k].RanBlock? <==>
              DueAt(r.c, r.states[i]).Some? && TestRead(r, k) >= DueAt(r.c, r.states[i]).value
  {
    PendingFixed(r, i, k);
    QuietStep(r, k);
  }

  /**
   * When anything is run at all: from any state of a quiet run on, some step runs a block if and only if
   * something is due within a week of the internal time there and some step tests its deadline no earlier.
   */
  lemma RunsIffDue(r: Run, i: nat)
    requires r.Quiet() && i <= |r.envs|
    requires forall j :: i <= j < |r.envs| ==> r.envs[j].dTest < DEFAULT_WAIT
    ensures (exists k :: i <= k < |r.envs| && r.events[k].RanBlock?) <==>
              DueAt(r.c, r.states[i]).Some?
              && exists k :: i <= k < |r.envs| && TestRead(r, k) >= DueAt(r.c, r.states[i]).value
  {
    if exists k :: i <= k < |r.envs| && r.events[k].RanBlock? {
      var k :| i <= k < |r.envs| && r.events[k].RanBlock?;
      var j := FirstBlock(r, i, k);
      FirstBlockIsDue(r, i, j);
    } else if DueAt(r.c, r.states[i]).Some? {
      forall k | i <= k < |r.envs| ensures TestRead(r, k) < DueAt(r.c, r.states[i]).value {
        FirstBlockIsDue(r, i, k);
      }
    }
  }

  // ---- The frozen window ---------------------------------------------------------------------

  /**
   * If nothing is due within a week of the internal time, a quiet run never runs a block and never moves
   * the internal time, however long it goes on, as long as no step loses an hour before its deadline test.
   */
  lemma {:induction false} FrozenWindow(r: Run, k: nat)
    requires r.Quiet() && k <= |r.envs| && DueAt(r.c, r.states[0]).None?
    requires forall j :: 0 <= j < |r.envs| ==> r.envs[j].dTest < DEFAULT_WAIT
    ensures r.states[k].internal == r.states[0].internal && r.states[k].schedule == r.states[0].schedule
    ensures k < |r.envs| ==> !r.events[k].RanBlock?
  {
    if k > 0 {
      FrozenWindow(r, k - 1);
      FrozenStep(r, k - 1);
    }
    if k < |r.envs| {
      FrozenStep(r, k);
    }
  }

  lemma FrozenStep(r: Run, k: nat)
    requires r.Quiet() && k < |r.envs| && DueAt(r.c, r.states[k]).None? && r.envs[k].dTest < DEFAULT_WAIT
    ensures !r.events[k].RanBlock?
    ensures r.states[k + 1].internal == r.states[k].internal && r.states[k + 1].schedule == r.states[k].schedule
  {
    QuietStep(r, k);
  }

  const FIFTEENTH := Requirement(TimeSpec([0], [0], [0], [], [15], [], 0), SetMainshow, false, -1, "")

  lemma JanuaryDay(t: int)
    requires 0 <= t < 31 * DAY
    ensures Fields(t, 0).mday == t / DAY + 1
  {
  }

  lemma NotInFirstWeek(t: int)
    requires 0 <= t < WEEK
    ensures DueBlock([FIFTEENTH], t, 0) == []
  {
    JanuaryDay(t);
    if DueBlock([FIFTEENTH], t, 0) != [] {
      BlockHead([FIFTEENTH], t, 0);
    }
  }

  lemma DueOnTheFifteenth()
    ensures Due(FIFTEENTH, 14 * DAY, 0)
  {
    JanuaryDay(14 * DAY);
  }

  /**
   * A monthly requirement can be lost that way: on the first of January midnight of the 15th is not in
   * view, so no quiet run, however long, ever runs anything, although the requirement is due on the 15th.
   */
  lemma MonthlyIsLost(r: Run, k: nat)
    requires r.Quiet() && k < |r.envs|
    requires r.c.engine == Config(false, 180, 0)
    requires r.states[0].schedule == [FIFTEENTH] && r.states[0].internal == 0
    requires forall j :: 0 <= j < |r.envs| ==> r.envs[j].dTest < DEFAULT_WAIT
    ensures !r.events[k].RanBlock? && r.states[k].internal == 0
    ensures Due(FIFTEENTH, 14 * DAY, 0)
  {
    NothingInFirstWeek(r.c, r.states[0]);
    FrozenWindow(r, k);
    DueOnTheFifteenth();
  }

  lemma NothingInFirstWeek(c: Settings, s: State)
    requires c.engine == Config(false, 180, 0) && s.schedule == [FIFTEENTH] && s.internal == 0
    ensures DueAt(c, s).None?
  {
    if DueAt(c, s).Some? {
      NotInFirstWeek(DueAt(c, s).value);
    }
  }
}
