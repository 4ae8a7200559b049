// What a human in control does to the schedule: after the override list is served, the loop resumes at the
// clock, and what came due meanwhile is skipped.

module Overrides {
  import opened RequirementEngine
  import opened Playlist
  import opened AutomationState
  import opened Runs
  import opened Passing

  /** A human is in control when the step begins, or something live is in the override list by then. */
  predicate Served(s: State, e: Env) {
    Manual(e.script) || Live(s.override) + Live(Queued(e.script)) != []
  }

  /** The state in which the step goes on: at the clock after serving, with the internal time set to it. */
  function Resumed(s: State, e: Env): State {
    if Served(s, e) then s.(clock := s.clock + e.overrideTime, internal := s.clock + e.overrideTime) else s
  }

  lemma OverrideResumes(s: State, e: Env)
    ensures AfterOverride(s, e) == Resumed(s, e).(override := Drain(s.override, e.script).ids)
  {
    if Served(s, e) {
      DrainRound(s.override, e.script);
    } else {
      DrainDone(s.override, e.script);
    }
  }

  /** What a step does to the clock and the internal time, from where it resumes. */
  predicate StepFrom(c: Settings, from: State, e: Env, t: State, v: Event) {
    var start := from.clock + e.dFill + e.dTest;
    && t.clock >= start && t.schedule == from.schedule
    && (if DueAt(c, from).Some? then
          && (v.RanBlock? <==> start >= DueAt(c, from).value)
          && (v.RanBlock? ==> v == RanBlock(DueAt(c, from).value, BlockAt(c, from), start))
        else
          && (v.RanBlock? <==> e.dTest >= 3600)
          && (v.RanBlock? ==> v == RanBlock(from.clock + e.dFill + 3600, [], start)))
    && (v.RanBlock? ==> t.internal == AfterBlock(from.internal, v.block, start + e.blockTime)
                        && t.clock == start + e.blockTime + e.dEnd)
    && (!v.RanBlock? ==> t.internal == from.internal)
  }

  lemma StepFromOverride(c: Settings, s: State, e: Env)
    ensures StepFrom(c, AfterOverride(s, e), e, Step(c, s, e).state, Step(c, s, e).event)
  {
    OverrideEffect(s, e);
    BlockEffect(c, s, e);
    SearchIs(c, s, e);
    if !Step(c, s, e).event.RanBlock? {
      PassEffect(c, s, e);
    }
  }

  lemma StepFromSame(c: Settings, a: State, b: State, e: Env, t: State, v: Event)
    requires a.clock == b.clock && a.internal == b.internal && a.schedule == b.schedule
    ensures StepFrom(c, a, e, t, v) <==> StepFrom(c, b, e, t, v)
  {
  }

  lemma SamePendingFrom(c: Settings, a: State, b: State)
    requires a.internal == b.internal && a.schedule == b.schedule
    ensures DueAt(c, a) == DueAt(c, b)
    ensures DueAt(c, a).Some? ==> BlockAt(c, a) == BlockAt(c, b) && GapAt(c, a) == GapAt(c, b)
  {
  }

  /**
   * Every step of every run, with or without a human: if the override list is served, the step searches from
   * an internal time that is its clock, the time it began plus the time the human took; else from the
   * internal time there was. It runs the block pending from there if and only if that has come.
   */
  lemma StepResumes(r: Run, k: nat)
    requires r.Valid() && k < |r.envs|
    ensures var s, e := r.states[k], r.envs[k];
            var queued := if e.script == [] then [] else e.script[0].added;
            var from := if (e.script != [] && e.script[0].manual) || Live(s.override) + Live(queued) != []
                        then s.(clock := s.clock + e.overrideTime, internal := s.clock + e.overrideTime) else s;
            StepFrom(r.c, from, e, r.states[k + 1], r.events[k])
    ensures Live(r.states[k + 1].override) == []
  {
    var s, e := r.states[k], r.envs[k];
    assert r.StepAt(k);
    KeptByStep(r, k);
    OverrideResumes(s, e);
    StepFromOverride(r.c, s, e);
    StepFromSame(r.c, AfterOverride(s, e), Resumed(s, e), e, r.states[k + 1], r.events[k]);
  }

  /** The deadline a step finds from where it resumes, and when everything it plays must be over. */
  function DeadlineFrom(c: Settings, from: State, e: Env): int {
    if DueAt(c, from).Some? then DueAt(c, from).value else from.clock + e.dFill + 3600
  }

  function LastFrom(c: Settings, from: State, e: Env): int {
    if DueAt(c, from).Some? then LastEnd(c, from) else from.clock + e.dFill + 3600 + 630720000
  }

  lemma SearchFrom(c: Settings, s: State, e: Env)
    ensures var next, from := Search(c, s, e), Resumed(s, e);
            next.deadline == DeadlineFrom(c, from, e) && next.deadline + next.gap == LastFrom(c, from, e)
  {
    OverrideResumes(s, e);
    SearchIs(c, s, e);
    SamePendingFrom(c, Resumed(s, e), AfterOverride(s, e));
  }

  /** The search point of a step that runs no block, from where it resumes. */
  lemma PointFrom(r: Run, k: nat) returns (t: State, next: Next)
    requires r.Valid() && k < |r.envs| && !r.events[k].RanBlock?
    ensures MainshowStep(r.c, t, next, r.envs[k]).state == r.states[k + 1]
    ensures MainshowStep(r.c, t, next, r.envs[k]).event == r.events[k]
    ensures t.mainshow == r.states[k].mainshow && t.bumpers == BumpersAt(r.states[k], r.envs[k])
    ensures var from := Resumed(r.states[k], r.envs[k]);
            && t.clock == from.clock + r.envs[k].dFill + r.envs[k].dTest
            && next.deadline == DeadlineFrom(r.c, from, r.envs[k])
            && next.deadline + next.gap == LastFrom(r.c, from, r.envs[k])
  {
    t, next := SearchPoint(r, k);
    OverrideResumes(r.states[k], r.envs[k]);
    SearchFrom(r.c, r.states[k], r.envs[k]);
  }

  /** What a step of any run that runs no block plays, draws or waits for, at clock readings from where it resumes. */
  lemma PassResumes(r: Run, k: nat)
    requires r.Valid() && k < |r.envs| && !r.events[k].RanBlock?
    ensures var s, e := r.states[k], r.envs[k];
            var from := Resumed(s, e);
            Outcome(r.c, s.mainshow, BumpersAt(s, e), from.clock + e.dFill + e.dTest,
                    DeadlineFrom(r.c, from, e), LastFrom(r.c, from, e), e, r.states[k + 1], r.events[k])
  {
    var s, e := r.states[k], r.envs[k];
    var from := Resumed(s, e);
    var t, next := PointFrom(r, k);
    MainshowOutcome(r.c, t, next, e, r.states[k + 1], r.events[k],
                    s.mainshow, BumpersAt(s, e), from.clock + e.dFill + e.dTest,
                    DeadlineFrom(r.c, from, e), LastFrom(r.c, from, e));
  }

  // ---- What is skipped -----------------------------------------------------------------------

  /** From where it resumes, a step runs nothing due before the internal time and does not go back behind it. */
  lemma RunsNothingBefore(r: Run, k: nat)
    requires r.Valid() && k < |r.envs|
    ensures Resumed(r.states[k], r.envs[k]).internal <= r.states[k + 1].internal
    ensures r.events[k].RanBlock? && r.events[k].block != [] ==>
              Resumed(r.states[k], r.envs[k]).internal <= r.events[k].deadline
  {
    StepResumes(r, k);
  }

  /** The step does not set the internal time back, as serving does while that is ahead of the clock. */
  predicate NotSetBack(s: State, e: Env) {
    Served(s, e) ==> s.internal <= s.clock + e.overrideTime
  }

  /** The internal time step `l` searches from is no later than that of the next step. */
  predicate Forward(r: Run, l: nat)
    requires l + 1 < |r.envs| <= |r.states|
  {
    SearchesFrom(r, l) <= SearchesFrom(r, l + 1)
  }

  function SearchesFrom(r: Run, l: nat): int
    requires l < |r.envs| <= |r.states|
  {
    Resumed(r.states[l], r.envs[l]).internal
  }

  lemma GoesForwardUnless(r: Run, l: nat)
    requires r.Valid() && l + 1 < |r.envs| && NotSetBack(r.states[l + 1], r.envs[l + 1])
    ensures Forward(r, l)
  {
    RunsNothingBefore(r, l);
  }

  lemma {:induction false} StaysAhead(r: Run, k: nat, j: nat)
    requires k <= j < |r.envs| <= |r.states| && forall l :: k <= l < j ==> Forward(r, l)
    ensures SearchesFrom(r, k) <= SearchesFrom(r, j)
    decreases j
  {
    if k < j {
      StaysAhead(r, k, j - 1);
      assert Forward(r, j - 1);
    }
  }

  /**
   * What came due while a human was in control is skipped: neither the step that served the override list nor
   * any later one runs a block due before the moment the human was done, until the internal time is set back.
   */
  lemma SkippedStaySkipped(r: Run, k: nat, j: nat)
    requires r.Valid() && k <= j < |r.envs|
    requires Manual(r.envs[k].script) || Live(r.states[k].override) + Live(Queued(r.envs[k].script)) != []
    requires forall l :: k < l <= j ==> NotSetBack(r.states[l], r.envs[l])
    ensures r.events[j].RanBlock? && r.events[j].block != [] ==>
              r.events[j].deadline >= r.states[k].clock + r.envs[k].overrideTime
  {
    forall l | k <= l < j ensures Forward(r, l) {
      GoesForwardUnless(r, l);
    }
    StaysAhead(r, k, j);
    RunsNothingBefore(r, j);
  }
}
