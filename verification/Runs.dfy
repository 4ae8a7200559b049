// Whole runs of the automation loop.

module Runs {
  import opened Options
  import opened Requirements
  import opened RequirementEngine
  import opened Playlist
  import opened AutomationState

  /** A run: what the outside world does at each step, the states passed through, and what was done. */
  datatype Run = Run(c: Settings, envs: seq<Env>, states: seq<State>, events: seq<Event>) {
    predicate StepAt(k: nat)
      requires k < |envs| == |events| && |states| == |envs| + 1
    {
      var result := Step(c, states[k], envs[k]);
      result.state == states[k + 1] && result.event == events[k]
    }

    ghost predicate Valid() {
      && |envs| == |events| && |states| == |envs| + 1
      && forall k :: 0 <= k < |envs| ==> StepAt(k)
    }

    /** No human takes over: the override list is empty and nothing is queued while the run lasts. */
    ghost predicate Quiet() {
      && Valid()
      && Live(states[0].override) == [] && forall k :: 0 <= k < |envs| ==> envs[k].script == []
    }
  }

  /** One more step of the loop. */
  function Extend(r: Run, e: Env): (x: Run)
    requires |r.events| == |r.envs| && |r.states| == |r.envs| + 1
    ensures |x.events| == |x.envs| && |x.states| == |x.envs| + 1
    ensures x.envs == r.envs + [e] && x.states[0] == r.states[0] && x.c == r.c
  {
    var last := Step(r.c, r.states[|r.envs|], e);
    Run(r.c, r.envs + [e], r.states + [last.state], r.events + [last.event])
  }

  lemma ExtendKeeps(r: Run, e: Env, k: nat)
    requires |r.events| == |r.envs| && |r.states| == |r.envs| + 1
    requires k < |r.envs| ==> r.StepAt(k)
    requires k <= |r.envs|
    ensures Extend(r, e).StepAt(k)
  {
    var x := Extend(r, e);
    if k < |r.envs| {
      assert x.states[k] == r.states[k] && x.states[k + 1] == r.states[k + 1];
      assert x.envs[k] == r.envs[k] && x.events[k] == r.events[k];
    }
  }

  lemma ExtendIsRun(r: Run, e: Env)
    requires r.Valid()
    ensures Extend(r, e).Valid()
  {
    forall k | 0 <= k <= |r.envs| ensures Extend(r, e).StepAt(k) {
      ExtendKeeps(r, e, k);
    }
  }

  /** Every start and every behaviour of the outside world has its run, so nothing proved of runs is idle. */
  lemma {:induction false} RunExists(c: Settings, start: State, envs: seq<Env>) returns (r: Run)
    ensures r.Valid() && r.c == c && r.envs == envs && r.states[0] == start
  {
    if envs == [] {
      r := Run(c, [], [start], []);
    } else {
      var n := |envs| - 1;
      r := RunExists(c, start, envs[..n]);
      ExtendIsRun(r, envs[n]);
      assert envs == envs[..n] + [envs[n]];
      r := Extend(r, envs[n]);
    }
  }

  // ---- What one step does to the clock and to the internal time ------------------------------

  function DueAt(c: Settings, s: State): Option<int> {
    Pending(c.engine, s.schedule, s.internal)
  }

  function BlockAt(c: Settings, s: State): seq<Requirement>
    requires DueAt(c, s).Some?
  {
    DueBlock(Effective(c.engine, s.schedule), DueAt(c, s).value, c.engine.offset)
  }

  function GapAt(c: Settings, s: State): int
    requires DueAt(c, s).Some?
  {
    MinGap(BlockAt(c, s))
  }

  function Overhead(e: Env): nat {
    e.dFill + e.dTest + e.dMain + e.dCutoff + e.dBumper + e.dLeft + e.dEnd
  }

  lemma OverrideEffect(s: State, e: Env)
    ensures var t := AfterOverride(s, e);
            && t.schedule == s.schedule && t.mainshow == s.mainshow && t.bumpers == s.bumpers
            && ((t.clock == s.clock && t.internal == s.internal) || t.clock == t.internal == s.clock + e.overrideTime)
            && Live(t.override) == []
    ensures Live(s.override) == [] && e.script == [] ==> AfterOverride(s, e) == s
  {
    DrainIsFifo(s.override, e.script);
    if Live(s.override) == [] && e.script == [] {
      DrainDone(s.override, []);
      assert s.override + [] == s.override;
    }
  }

  lemma BlockStepEffect(s: State, next: Next, e: Env)
    ensures var r := BlockStep(s, next, e);
            && r.event == RanBlock(next.deadline, next.block, s.clock)
            && r.state.clock == s.clock + e.blockTime + e.dEnd
            && r.state.internal == AfterBlock(s.internal, next.block, s.clock + e.blockTime)
            && r.state.schedule == s.schedule && r.state.override == s.override
  {
  }

  lemma AtTestIs(s: State, e: Env)
    ensures var t, u := AfterOverride(s, e), AtTest(s, e);
            && u.clock == t.clock + e.dFill + e.dTest && u.internal == t.internal
            && u.schedule == s.schedule && u.override == t.override
  {
  }

  /** When a step runs a block: exactly if the deadline found has come by the time it is tested. */
  lemma BlockEffect(c: Settings, s: State, e: Env)
    ensures var t, r, next := AfterOverride(s, e), Step(c, s, e), Search(c, s, e);
            var start := t.clock + e.dFill + e.dTest;
            && (r.event.RanBlock? <==> start >= next.deadline)
            && (r.event.RanBlock? ==>
                  && r.event == RanBlock(next.deadline, next.block, start)
                  && r.state.clock == start + e.blockTime + e.dEnd
                  && r.state.internal == AfterBlock(t.internal, next.block, start + e.blockTime)
                  && r.state.schedule == s.schedule && r.state.override == t.override)
  {
    AtTestIs(s, e);
    BlockStepEffect(AtTest(s, e), Search(c, s, e), e);
    MainshowStepKeeps(c, AtTest(s, e), Search(c, s, e), e);
  }

  predicate Keeps(s: State, r: StepResult) {
    && !r.event.RanBlock?
    && r.state.internal == s.internal && r.state.schedule == s.schedule && r.state.override == s.override
    && r.state.clock >= s.clock
  }

  lemma MainshowStepKeeps(c: Settings, s: State, next: Next, e: Env)
    ensures Keeps(s, MainshowStep(c, s, next, e))
  {
  }

  /** A step that runs no block leaves the internal time alone, and the clock does not go back. */
  lemma PassEffect(c: Settings, s: State, e: Env)
    requires !Step(c, s, e).event.RanBlock?
    ensures Keeps(AfterOverride(s, e).(clock := AtTest(s, e).clock), Step(c, s, e))
    ensures AtTest(s, e).clock < Search(c, s, e).deadline
    ensures Step(c, s, e) == MainshowStep(c, AtTest(s, e), Search(c, s, e), e)
  {
    MainshowStepKeeps(c, AtTest(s, e), Search(c, s, e), e);
  }

  lemma SearchIs(c: Settings, s: State, e: Env)
    ensures var t, next := AfterOverride(s, e), Search(c, s, e);
            if DueAt(c, t).Some? then next == Next(BlockAt(c, t), DueAt(c, t).value, GapAt(c, t))
            else next == Next([], t.clock + e.dFill + DEFAULT_WAIT, INITIAL_GAP)
    ensures DueAt(c, AfterOverride(s, e)).Some? ==> Search(c, s, e).block != []
  {
  }

  // ---- Steps without override ----------------------------------------------------------------

  lemma KeptByStep(r: Run, k: nat)
    requires r.Valid() && k < |r.envs|
    ensures r.states[k + 1].schedule == r.states[k].schedule && Live(r.states[k + 1].override) == []
  {
    assert r.StepAt(k);
    StepKeepsSchedule(r.c, r.states[k], r.envs[k]);
    OverrideEffect(r.states[k], r.envs[k]);
  }

  lemma {:induction false} ScheduleAt(r: Run, k: nat)
    requires r.Quiet() && k <= |r.envs|
    ensures Live(r.states[k].override) == [] && r.states[k].schedule == r.states[0].schedule
  {
    if k > 0 {
      ScheduleAt(r, k - 1);
      KeptByStep(r, k - 1);
    }
  }

  lemma QuietAt(r: Run, k: nat)
    requires r.Quiet() && k < |r.envs|
    ensures AfterOverride(r.states[k], r.envs[k]) == r.states[k]
  {
    ScheduleAt(r, k);
    OverrideEffect(r.states[k], r.envs[k]);
  }

  lemma StepKeepsSchedule(c: Settings, s: State, e: Env)
    ensures Step(c, s, e).state.schedule == s.schedule
    ensures Step(c, s, e).state.override == AfterOverride(s, e).override
  {
    BlockEffect(c, s, e);
    OverrideEffect(s, e);
    if !Step(c, s, e).event.RanBlock? {
      PassEffect(c, s, e);
    }
  }

  /** What every step of a quiet run does to the clock and the internal time. */
  lemma QuietStep(r: Run, k: nat)
    requires r.Quiet() && k < |r.envs|
    ensures var s, t, e, v := r.states[k], r.states[k + 1], r.envs[k], r.events[k];
            var start := s.clock + e.dFill + e.dTest;
            && t.clock >= start && t.schedule == s.schedule
            && (if DueAt(r.c, s).Some? then
                  && (v.RanBlock? <==> start >= DueAt(r.c, s).value)
                  && (v.RanBlock? ==> v == RanBlock(DueAt(r.c, s).value, BlockAt(r.c, s), start))
                else
                  && (v.RanBlock? <==> e.dTest >= DEFAULT_WAIT)
                  && (v.RanBlock? ==> v == RanBlock(s.clock + e.dFill + DEFAULT_WAIT, [], start)))
            && (v.RanBlock? ==> t.internal == AfterBlock(s.internal, v.block, start + e.blockTime)
                                && t.clock == start + e.blockTime + e.dEnd)
            && (!v.RanBlock? ==> t.internal == s.internal)
  {
    var s, e := r.states[k], r.envs[k];
    assert r.StepAt(k);
    QuietAt(r, k);
    BlockEffect(r.c, s, e);
    SearchIs(r.c, s, e);
    if !r.events[k].RanBlock? {
      PassEffect(r.c, s, e);
    }
  }
}
