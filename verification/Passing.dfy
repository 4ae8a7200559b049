// Whole-run theorems about how time is passed before one deadline.

module Passing {
  import opened Options
  import opened AdvanceFold
  import opened RequirementEngine
  import opened Schema
  import opened Playlist
  import opened AutomationState
  import opened Runs
  import opened Deadlines

  /** The latest instant at which something played before the pending deadline may end. */
  function LastEnd(c: Settings, s: State): int
    requires DueAt(c, s).Some?
  {
    DueAt(c, s).value + GapAt(c, s)
  }

  /** When a step reads the clock to limit the mainshow track, and when to limit the bumper. */
  function MainRead(s: State, e: Env): int {
    s.clock + e.dFill + e.dTest + e.dMain
  }

  function BumperRead(s: State, e: Env): int {
    MainRead(s, e) + e.dCutoff + e.dBumper
  }

  /** As long as no block runs, the same block stays pending, with the same time to fill. */
  lemma SamePending(r: Run, i: nat, k: nat)
    requires r.Quiet() && i <= k <= |r.envs| && NoBlock(r, i, k) && DueAt(r.c, r.states[i]).Some?
    ensures DueAt(r.c, r.states[k]) == DueAt(r.c, r.states[i])
    ensures LastEnd(r.c, r.states[k]) == LastEnd(r.c, r.states[i])
  {
    PendingFixed(r, i, k);
  }

  predicate Waiting(r: Run, k: nat) {
    && |r.envs| == |r.events| && |r.states| == |r.envs| + 1
    && k < |r.envs| && !r.events[k].RanBlock? && DueAt(r.c, r.states[k]).Some?
  }

  lemma StillWaiting(r: Run, i: nat, k: nat)
    requires r.Quiet() && i <= k < |r.envs| && NoBlock(r, i, k + 1) && DueAt(r.c, r.states[i]).Some?
    ensures Waiting(r, k)
  {
    PendingFixed(r, i, k);
  }

  // ---- One step ------------------------------------------------------------------------------

  /** The bumpers a step has to draw on. */
  function BumpersAt(s: State, e: Env): seq<int> {
    if Live(s.bumpers) == [] then e.bumpersBefore else s.bumpers
  }

  /**
   * What a step does that passes time: `clock` is when it compared the deadline, `last` when what it plays
   * must be over. It plays the first mainshow track that fits; else it draws another mainshow, exactly if
   * no live id is left and the deadline is still far; else it plays the first bumper that fits; else it
   * sleeps up to the deadline exactly if that is ahead by no more than the cutoff.
   */
  predicate Outcome(c: Settings, mainshow: seq<int>, bumpers: seq<int>, clock: int, deadline: int, last: int,
                    e: Env, after: State, v: Event)
  {
    var t := clock + e.dMain;
    var u := t + e.dCutoff + e.dBumper;
    var track, bumper := PopFit(mainshow, e.library, last - t), PopFit(bumpers, e.library, last - u);
    && after.clock >= t
    && (v.PlayedMain? <==> track.item.Some?)
    && (v.PlayedMain? ==> track == Pop(after.mainshow, Some(v.item)) && after.clock == t + e.playTime + e.dEnd)
    && (v.DrewMainshow? <==> !v.PlayedMain? && Live(mainshow) == [] && deadline - (t + e.dCutoff) >= c.bumperCutoff)
    && (v.DrewMainshow? ==> after.mainshow == e.drawnMainshow && after.clock == t + e.dCutoff + e.dEnd)
    && (v.PlayedMain? || v.DrewMainshow? ==> after.bumpers == bumpers)
    && (!v.PlayedMain? && !v.DrewMainshow? ==> after.mainshow == mainshow && (v.PlayedBumper? <==> bumper.item.Some?))
    && (v.PlayedBumper? ==> bumper == Pop(after.bumpers, Some(v.item)) && after.clock == u + e.playTime + e.dEnd)
    && (!v.PlayedMain? && !v.DrewMainshow? && !v.PlayedBumper? ==>
          var left := deadline - (u + e.dLeft);
          && after.bumpers == bumpers
          && (v.Overdue? <==> left <= 0)
          && (v.Slept? <==> 0 < left <= c.sleepCutoff)
          && (v.Idle? <==> left > 0 && left > c.sleepCutoff)
          && (v.Slept? ==> v.seconds == left && after.clock == deadline + e.dEnd)
          && (!v.Slept? ==> after.clock == u + e.dLeft + e.dEnd))
  }

  lemma TrackOutcome(c: Settings, s: State, next: Next, e: Env)
    requires PopFit(s.mainshow, e.library, next.deadline + next.gap - (s.clock + e.dMain)).item.Some?
    ensures var r := MainshowStep(c, s, next, e);
            Outcome(c, s.mainshow, s.bumpers, s.clock, next.deadline, next.deadline + next.gap, e, r.state, r.event)
  {
  }

  lemma NoTrackOutcome(c: Settings, s: State, next: Next, e: Env)
    requires PopFit(s.mainshow, e.library, next.deadline + next.gap - (s.clock + e.dMain)).item.None?
    ensures var r := MainshowStep(c, s, next, e);
            Outcome(c, s.mainshow, s.bumpers, s.clock, next.deadline, next.deadline + next.gap, e, r.state, r.event)
  {
  }

  lemma MainshowOutcome(c: Settings, s: State, next: Next, e: Env, after: State, v: Event,
                        mainshow: seq<int>, bumpers: seq<int>, clock: int, deadline: int, last: int)
    requires MainshowStep(c, s, next, e).state == after && MainshowStep(c, s, next, e).event == v
    requires s.mainshow == mainshow && s.bumpers == bumpers && s.clock == clock
    requires next.deadline == deadline && next.deadline + next.gap == last
    ensures Outcome(c, mainshow, bumpers, clock, deadline, last, e, after, v)
  {
    if PopFit(s.mainshow, e.library, next.deadline + next.gap - (s.clock + e.dMain)).item.Some? {
      TrackOutcome(c, s, next, e);
    } else {
      NoTrackOutcome(c, s, next, e);
    }
  }

  /** The state and search result from which a step that runs no block goes looking for something to play. */
  lemma SearchPoint(r: Run, k: nat) returns (t: State, next: Next)
    requires r.Valid() && k < |r.envs| && !r.events[k].RanBlock?
    ensures MainshowStep(r.c, t, next, r.envs[k]).state == r.states[k + 1]
    ensures MainshowStep(r.c, t, next, r.envs[k]).event == r.events[k]
    ensures t.mainshow == r.states[k].mainshow && t.bumpers == BumpersAt(r.states[k], r.envs[k])
    ensures t.clock == AfterOverride(r.states[k], r.envs[k]).clock + r.envs[k].dFill + r.envs[k].dTest
    ensures next == Search(r.c, r.states[k], r.envs[k])
  {
    t, next := AtTest(r.states[k], r.envs[k]), Search(r.c, r.states[k], r.envs[k]);
    OverrideEffect(r.states[k], r.envs[k]);
    assert r.StepAt(k);
    PassEffect(r.c, r.states[k], r.envs[k]);
  }

  /** In a quiet run the search point is given by what is pending. */
  lemma QuietPoint(r: Run, k: nat) returns (t: State, next: Next)
    requires r.Quiet() && k < |r.envs| && !r.events[k].RanBlock?
    ensures MainshowStep(r.c, t, next, r.envs[k]).state == r.states[k + 1]
    ensures MainshowStep(r.c, t, next, r.envs[k]).event == r.events[k]
    ensures t.mainshow == r.states[k].mainshow && t.bumpers == BumpersAt(r.states[k], r.envs[k])
    ensures t.clock == TestRead(r, k)
    ensures if DueAt(r.c, r.states[k]).Some? then
              next.deadline == DueAt(r.c, r.states[k]).value && next.deadline + next.gap == LastEnd(r.c, r.states[k])
            else
              next.deadline == r.states[k].clock + r.envs[k].dFill + DEFAULT_WAIT && next.gap == INITIAL_GAP
  {
    t, next := SearchPoint(r, k);
    QuietAt(r, k);
    SearchIs(r.c, r.states[k], r.envs[k]);
  }

  /** What a pending step of a quiet run does, in terms of the run. */
  lemma PassAt(r: Run, k: nat)
    requires r.Quiet() && Waiting(r, k)
    ensures var s, e := r.states[k], r.envs[k];
            Outcome(r.c, s.mainshow, BumpersAt(s, e), TestRead(r, k),
                    DueAt(r.c, s).value, LastEnd(r.c, s), e, r.states[k + 1], r.events[k])
  {
    var s, e := r.states[k], r.envs[k];
    var t, next := QuietPoint(r, k);
    MainshowOutcome(r.c, t, next, e, r.states[k + 1], r.events[k],
                    s.mainshow, BumpersAt(s, e), TestRead(r, k), DueAt(r.c, s).value, LastEnd(r.c, s));
  }

  /** With nothing pending a step passes time up to an hour from its search, and for twenty years beyond. */
  lemma FreePassAt(r: Run, k: nat)
    requires r.Quiet() && k < |r.envs| && !r.events[k].RanBlock? && DueAt(r.c, r.states[k]).None?
    ensures var s, e := r.states[k], r.envs[k];
            var deadline := s.clock + e.dFill + DEFAULT_WAIT;
            Outcome(r.c, s.mainshow, BumpersAt(s, e), TestRead(r, k),
                    deadline, deadline + INITIAL_GAP, e, r.states[k + 1], r.events[k])
  {
    var s, e := r.states[k], r.envs[k];
    var deadline := s.clock + e.dFill + DEFAULT_WAIT;
    var t, next := QuietPoint(r, k);
    MainshowOutcome(r.c, t, next, e, r.states[k + 1], r.events[k],
                    s.mainshow, BumpersAt(s, e), TestRead(r, k), deadline, deadline + INITIAL_GAP);
  }

  /** Whatever a human in control did before, a step that runs no block has one of these outcomes. */
  lemma AnyPassAt(r: Run, k: nat) returns (clock: int, deadline: int, last: int)
    requires r.Valid() && k < |r.envs| && !r.events[k].RanBlock?
    ensures Outcome(r.c, r.states[k].mainshow, BumpersAt(r.states[k], r.envs[k]), clock, deadline, last,
                    r.envs[k], r.states[k + 1], r.events[k])
  {
    var t, next := SearchPoint(r, k);
    clock, deadline, last := t.clock, next.deadline, next.deadline + next.gap;
    MainshowOutcome(r.c, t, next, r.envs[k], r.states[k + 1], r.events[k],
                    r.states[k].mainshow, BumpersAt(r.states[k], r.envs[k]), clock, deadline, last);
  }

  predicate TooLong(ids: seq<int>, library: Library, seconds: int) {
    forall j :: 0 <= j < |ids| ==> !Fits(library, ids[j], seconds)
  }

  lemma PopFails(ids: seq<int>, library: Library, seconds: int)
    ensures PopFit(ids, library, seconds).item.None? <==> TooLong(ids, library, seconds)
  {
  }

  lemma TooLongForLess(ids: seq<int>, library: Library, seconds: int, less: int)
    requires TooLong(ids, library, seconds) && less <= seconds
    ensures TooLong(ids, library, less)
  {
  }

  lemma TooLongForSame(ids: seq<int>, a: Library, b: Library, seconds: int)
    requires SameTracks(a, b)
    ensures TooLong(ids, a, seconds) <==> TooLong(ids, b, seconds)
  {
    forall j | 0 <= j < |ids| ensures Fits(a, ids[j], seconds) <==> Fits(b, ids[j], seconds) {
    }
  }

  /** With less time, on the same tracks, what did not fit does not fit. */
  lemma TooLongLater(ids: seq<int>, a: Library, b: Library, library: Library, seconds: int, less: int)
    requires SameTracks(a, library) && SameTracks(b, library) && TooLong(ids, a, seconds) && less <= seconds
    ensures TooLong(ids, b, less)
  {
    TooLongForSame(ids, a, library, seconds);
    TooLongForLess(ids, library, seconds, less);
    TooLongForSame(ids, b, library, less);
  }

  /** The time a pending step has for a mainshow track, and for a bumper. */
  function MainLimit(r: Run, k: nat): int
    requires k < |r.envs| && k < |r.states| && DueAt(r.c, r.states[k]).Some?
  {
    LastEnd(r.c, r.states[k]) - MainRead(r.states[k], r.envs[k])
  }

  function BumperLimit(r: Run, k: nat): int
    requires k < |r.envs| && k < |r.states| && DueAt(r.c, r.states[k]).Some?
  {
    LastEnd(r.c, r.states[k]) - BumperRead(r.states[k], r.envs[k])
  }

  // ---- The shape of play ---------------------------------------------------------------------

  predicate Undisturbed(r: Run, i: nat, k: nat, library: Library)
    requires i <= k <= |r.envs| == |r.events|
  {
    && NoBlock(r, i, k)
    && (forall j :: i <= j < k ==> !r.events[j].DrewMainshow?)
    && (forall j :: i <= j < k ==> SameTracks(r.envs[j].library, library))
  }

  /** A pending step plays from the mainshow exactly if something in it fits. */
  lemma PlaysIffFits(r: Run, k: nat)
    requires r.Quiet() && Waiting(r, k)
    ensures r.events[k].PlayedMain? <==> !TooLong(r.states[k].mainshow, r.envs[k].library, MainLimit(r, k))
  {
    PassAt(r, k);
    PopFails(r.states[k].mainshow, r.envs[k].library, MainLimit(r, k));
  }

  lemma MainshowKept(r: Run, k: nat)
    requires r.Quiet() && Waiting(r, k) && !r.events[k].PlayedMain? && !r.events[k].DrewMainshow?
    ensures r.states[k + 1].mainshow == r.states[k].mainshow
  {
    PassAt(r, k);
  }

  /**
   * Once a step finds nothing in the mainshow, no later step before the same deadline plays from it, as
   * long as the mainshow is not replaced and the same tracks are there: budgets only shrink. Bumpers may
   * be played meanwhile, and their play counts change.
   */
  lemma {:induction false} MainshowStaysStuck(r: Run, i: nat, k: nat, library: Library)
    requires r.Quiet() && i < k < |r.envs| && Undisturbed(r, i, k + 1, library)
    requires DueAt(r.c, r.states[i]).Some? && !r.events[i].PlayedMain?
    ensures !r.events[k].PlayedMain? && r.states[k].mainshow == r.states[i].mainshow
    decreases k - i
  {
    if i < k - 1 {
      MainshowStaysStuck(r, i, k - 1, library);
    }
    StillWaiting(r, i, k - 1);
    MainshowKept(r, k - 1);
    StuckLater(r, i, k, library);
  }

  lemma StuckLater(r: Run, i: nat, k: nat, library: Library)
    requires r.Quiet() && i < k < |r.envs| && NoBlock(r, i, k + 1) && DueAt(r.c, r.states[i]).Some?
    requires SameTracks(r.envs[i].library, library) && SameTracks(r.envs[k].library, library)
    requires !r.events[i].PlayedMain? && r.states[k].mainshow == r.states[i].mainshow
    ensures !r.events[k].PlayedMain?
  {
    PlaysIffFits(r, i);
    LaterLimit(r, i, k);
    TooLongLater(r.states[i].mainshow, r.envs[i].library, r.envs[k].library, library, MainLimit(r, i), MainLimit(r, k));
    PlaysIffFits(r, k);
  }

  lemma LaterRead(r: Run, i: nat, k: nat)
    requires r.Quiet() && i < k < |r.envs| && NoBlock(r, i, k) && Waiting(r, i)
    ensures MainRead(r.states[i], r.envs[i]) <= MainRead(r.states[k], r.envs[k])
  {
    ReadsGrow(r, i);
    PendingFixed(r, i + 1, k);
  }

  lemma LaterLimit(r: Run, i: nat, k: nat)
    requires r.Quiet() && i < k < |r.envs| && NoBlock(r, i, k) && DueAt(r.c, r.states[i]).Some?
    ensures DueAt(r.c, r.states[k]).Some? && MainLimit(r, k) <= MainLimit(r, i)
  {
    LaterRead(r, i, k);
    SamePending(r, i, k);
  }

  /** A pending step ends no earlier than its reading of the clock. */
  lemma ReadsGrow(r: Run, k: nat)
    requires r.Quiet() && Waiting(r, k)
    ensures MainRead(r.states[k], r.envs[k]) <= r.states[k + 1].clock
  {
    PassAt(r, k);
  }

  /** A sleep is short, ends at the deadline, and is the last resort: nothing in either list fits what is left. */
  lemma SleepIsLast(r: Run, k: nat)
    requires r.Quiet() && Waiting(r, k) && r.events[k].Slept?
    ensures 0 < r.events[k].seconds <= r.c.sleepCutoff
    ensures r.states[k + 1].clock == DueAt(r.c, r.states[k]).value + r.envs[k].dEnd
    ensures TooLong(r.states[k].mainshow, r.envs[k].library, MainLimit(r, k))
    ensures TooLong(BumpersAt(r.states[k], r.envs[k]), r.envs[k].library, BumperLimit(r, k))
  {
    PassAt(r, k);
    PlaysIffFits(r, k);
    PopFails(BumpersAt(r.states[k], r.envs[k]), r.envs[k].library, BumperLimit(r, k));
  }

  /** After a sleep the next step runs the block it waited for. */
  lemma SleepThenBlock(r: Run, k: nat)
    requires r.Quiet() && Waiting(r, k) && r.events[k].Slept? && k + 1 < |r.envs|
    ensures r.events[k + 1].RanBlock? && r.events[k + 1].deadline == DueAt(r.c, r.states[k]).value
  {
    SleepIsLast(r, k);
    assert NoBlock(r, k, k + 1);
    SamePending(r, k, k + 1);
    QuietStep(r, k + 1);
  }

  function SecondsSlept(r: Run, i: nat, k: nat): int
    requires i <= k <= |r.envs| == |r.events|
    decreases k - i
  {
    if i == k then 0
    else SecondsSlept(r, i, k - 1) + if r.events[k - 1].Slept? then r.events[k - 1].seconds else 0
  }

  /** Step `k` begins before `d`, and if it sleeps, sleeps no longer than the cutoff and until `d` has come. */
  predicate SleepsUpTo(r: Run, k: nat, d: int)
    requires k < |r.events| && |r.states| == |r.events| + 1
  {
    && r.states[k].clock < d
    && (r.events[k].Slept? ==> 0 < r.events[k].seconds <= r.c.sleepCutoff && r.states[k + 1].clock >= d)
  }

  lemma StepSleepsUpTo(r: Run, i: nat, k: nat)
    requires r.Quiet() && i <= k < |r.envs| && NoBlock(r, i, k + 1) && DueAt(r.c, r.states[i]).Some?
    ensures SleepsUpTo(r, k, DueAt(r.c, r.states[i]).value)
  {
    StillWaiting(r, i, k);
    PendingFixed(r, i, k);
    QuietStep(r, k);
    if r.events[k].Slept? {
      SleepIsLast(r, k);
    }
  }

  lemma {:induction false} SleepsAddUp(r: Run, i: nat, k: nat, d: int)
    requires i <= k <= |r.envs| == |r.events| && |r.states| == |r.events| + 1
    requires forall j :: i <= j < k ==> SleepsUpTo(r, j, d)
    ensures SecondsSlept(r, i, k) <= Max(0, r.c.sleepCutoff)
    ensures SecondsSlept(r, i, k) != 0 ==> r.states[k].clock >= d
    decreases k - i
  {
    if i < k {
      SleepsAddUp(r, i, k - 1, d);
      assert SleepsUpTo(r, k - 1, d);
    }
  }

  /** All the sleep before one deadline adds up to at most the sleep cutoff: there is at most one sleep. */
  lemma SleepIsBounded(r: Run, i: nat, k: nat)
    requires r.Quiet() && i <= k <= |r.envs| && NoBlock(r, i, k) && DueAt(r.c, r.states[i]).Some?
    ensures SecondsSlept(r, i, k) <= Max(0, r.c.sleepCutoff)
  {
    forall j | i <= j < k ensures SleepsUpTo(r, j, DueAt(r.c, r.states[i]).value) {
      StepSleepsUpTo(r, i, j);
    }
    SleepsAddUp(r, i, k, DueAt(r.c, r.states[i]).value);
  }
}
