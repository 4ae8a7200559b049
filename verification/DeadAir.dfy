// Dead air: exactly when a step plays nothing, and exactly how long that goes on.

module DeadAir {
  import opened Options
  import opened LocalTime
  import opened Requirements
  import opened RequirementEngine
  import opened AdvanceFold
  import opened Schema
  import opened Playlist
  import opened AutomationState
  import opened Runs
  import opened Deadlines
  import opened Passing

  // ---- One step ------------------------------------------------------------------------------

  /** A step that has looked at both lists in vain. */
  predicate Waits(v: Event) {
    v.Idle? || v.Overdue? || v.Slept?
  }

  /** A step in which nothing is heard; drawing a mainshow plays nothing either. */
  predicate Silent(v: Event) {
    Waits(v) || v.DrewMainshow?
  }

  /** The deadline a step of a quiet run finds, and when everything it plays must be over. */
  function Deadline(r: Run, k: nat): int
    requires k < |r.envs| && k < |r.states|
  {
    if DueAt(r.c, r.states[k]).Some? then DueAt(r.c, r.states[k]).value
    else r.states[k].clock + r.envs[k].dFill + DEFAULT_WAIT
  }

  function Last(r: Run, k: nat): int
    requires k < |r.envs| && k < |r.states|
  {
    if DueAt(r.c, r.states[k]).Some? then LastEnd(r.c, r.states[k]) else Deadline(r, k) + INITIAL_GAP
  }

  /** What is left to the deadline `d` when a step decides whether to sleep. */
  function Left(r: Run, k: nat, d: int): int
    requires k < |r.envs| && k < |r.states|
  {
    d - (BumperRead(r.states[k], r.envs[k]) + r.envs[k].dLeft)
  }

  /** The deadline `d` is still so far that an empty mainshow is replaced. */
  predicate Far(r: Run, k: nat, d: int)
    requires k < |r.envs| && k < |r.states|
  {
    d - (MainRead(r.states[k], r.envs[k]) + r.envs[k].dCutoff) >= r.c.bumperCutoff
  }

  /** The guard under which a step draws another mainshow. */
  predicate Redraws(r: Run, k: nat, d: int)
    requires k < |r.envs| && k < |r.states|
  {
    Live(r.states[k].mainshow) == [] && Far(r, k, d)
  }

  /** The mainshow, and the bumpers at hand, hold nothing that would be over by `last`. */
  predicate NoTrackFits(r: Run, k: nat, last: int)
    requires k < |r.envs| && k < |r.states|
  {
    TooLong(r.states[k].mainshow, r.envs[k].library, last - MainRead(r.states[k], r.envs[k]))
  }

  predicate NoBumperFits(r: Run, k: nat, last: int)
    requires k < |r.envs| && k < |r.states|
  {
    TooLong(BumpersAt(r.states[k], r.envs[k]), r.envs[k].library, last - BumperRead(r.states[k], r.envs[k]))
  }

  lemma NoneLeft(ids: seq<int>, library: Library, seconds: int)
    requires Live(ids) == []
    ensures TooLong(ids, library, seconds)
  {
    NoLive(ids);
  }

  lemma OutcomeSilentIff(c: Settings, mainshow: seq<int>, bumpers: seq<int>, clock: int, deadline: int, last: int,
                         e: Env, after: State, v: Event)
    requires Outcome(c, mainshow, bumpers, clock, deadline, last, e, after, v) && !v.RanBlock?
    ensures var t := clock + e.dMain;
            var u := t + e.dCutoff + e.dBumper;
            var track, bumper := TooLong(mainshow, e.library, last - t), TooLong(bumpers, e.library, last - u);
            var draws, left := Live(mainshow) == [] && deadline - (t + e.dCutoff) >= c.bumperCutoff,
                               deadline - (u + e.dLeft);
            && (v.DrewMainshow? <==> draws)
            && (Waits(v) <==> track && bumper && !draws)
            && (v.Idle? <==> track && bumper && !draws && left > Max(0, c.sleepCutoff))
            && (v.Slept? <==> track && bumper && !draws && 0 < left <= c.sleepCutoff)
  {
    var t := clock + e.dMain;
    PopFails(mainshow, e.library, last - t);
    PopFails(bumpers, e.library, last - (t + e.dCutoff + e.dBumper));
    if Live(mainshow) == [] {
      NoneLeft(mainshow, e.library, last - t);
    }
  }

  /** What any step of a quiet run does that runs no block. */
  lemma QuietOutcome(r: Run, k: nat)
    requires r.Quiet() && k < |r.envs| && !r.events[k].RanBlock?
    ensures Outcome(r.c, r.states[k].mainshow, BumpersAt(r.states[k], r.envs[k]), TestRead(r, k),
                    Deadline(r, k), Last(r, k), r.envs[k], r.states[k + 1], r.events[k])
  {
    if DueAt(r.c, r.states[k]).Some? {
      PassAt(r, k);
    } else {
      FreePassAt(r, k);
    }
  }

  /** What a step does about silence, with `d` the deadline and `last` when everything must be over. */
  predicate Characterised(r: Run, k: nat, d: int, last: int)
    requires k < |r.envs| && k < |r.events| && k < |r.states|
  {
    var v := r.events[k];
    var waits := NoTrackFits(r, k, last) && NoBumperFits(r, k, last) && !Redraws(r, k, d);
    && (Silent(v) <==> NoTrackFits(r, k, last) && (Redraws(r, k, d) || NoBumperFits(r, k, last)))
    && (v.DrewMainshow? <==> Redraws(r, k, d))
    && (Waits(v) <==> waits)
    && (v.Idle? <==> waits && Left(r, k, d) > Max(0, r.c.sleepCutoff))
    && (v.Slept? <==> waits && 0 < Left(r, k, d) <= r.c.sleepCutoff)
  }

  /**
   * Exactly when a step of a quiet run that runs no block is silent, and in what way: nothing in the
   * mainshow fits, and either it is empty and the deadline so far that another is drawn, whatever bumpers
   * there are, or no bumper fits. Then it idles if more than the sleep cutoff is left, however much that is.
   */
  lemma SilentIff(r: Run, k: nat)
    requires r.Quiet() && k < |r.envs| && !r.events[k].RanBlock?
    ensures Characterised(r, k, Deadline(r, k), Last(r, k))
  {
    var s, e := r.states[k], r.envs[k];
    QuietOutcome(r, k);
    OutcomeSilentIff(r.c, s.mainshow, BumpersAt(s, e), TestRead(r, k), Deadline(r, k), Last(r, k),
                     e, r.states[k + 1], r.events[k]);
    if Live(s.mainshow) == [] {
      NoneLeft(s.mainshow, e.library, Last(r, k) - MainRead(s, e));
    }
  }

  /** What a silent step hands on: the bumpers at hand, and its mainshow or the one drawn. */
  predicate HandsOn(s: State, e: Env, t: State, v: Event) {
    && t.mainshow == (if v.DrewMainshow? then e.drawnMainshow else s.mainshow)
    && t.bumpers == BumpersAt(s, e)
    && t.clock >= MainRead(s, e) + e.dCutoff + e.dEnd
    && (Waits(v) ==> t.clock >= BumperRead(s, e) + e.dLeft + e.dEnd)
  }

  lemma SilentKeeps(r: Run, k: nat)
    requires r.Quiet() && k < |r.envs| && Silent(r.events[k])
    ensures HandsOn(r.states[k], r.envs[k], r.states[k + 1], r.events[k])
  {
    QuietOutcome(r, k);
  }

  // ---- A stretch before one deadline ---------------------------------------------------------

  /** What a stretch needs to know of step `k`. */
  predicate SilentStep(r: Run, k: nat, d: int, last: int)
    requires k < |r.envs| == |r.events| && |r.states| == |r.envs| + 1
  {
    && (r.events[k].DrewMainshow? <==> Redraws(r, k, d))
    && (Waits(r.events[k]) <==> NoTrackFits(r, k, last) && NoBumperFits(r, k, last) && !Redraws(r, k, d))
    && (Silent(r.events[k]) ==> HandsOn(r.states[k], r.envs[k], r.states[k + 1], r.events[k]))
  }

  lemma SilentStepAt(r: Run, i: nat, k: nat, d: int, last: int)
    requires r.Quiet() && i <= k < |r.envs| && NoBlock(r, i, k + 1)
    requires DueAt(r.c, r.states[i]) == Some(d) && last == LastEnd(r.c, r.states[i])
    ensures SilentStep(r, k, d, last)
  {
    SamePending(r, i, k);
    SilentIff(r, k);
    if Silent(r.events[k]) {
      SilentKeeps(r, k);
    }
  }

  /** A step that has to refill its bumpers is given none that would be over by `last`. */
  predicate RefillFails(r: Run, k: nat, library: Library, last: int)
    requires k < |r.envs| && k < |r.states|
  {
    Live(r.states[k].bumpers) == [] ==>
      TooLong(r.envs[k].bumpersBefore, library, last - BumperRead(r.states[k], r.envs[k]))
  }

  /** The mainshow drawn the step before `k` holds nothing that fits; nor do the bumpers, if they are now turned to. */
  predicate DrawFails(r: Run, k: nat, library: Library, d: int, last: int)
    requires 0 < k < |r.envs| && k < |r.states|
  {
    && TooLong(r.envs[k - 1].drawnMainshow, library, last - MainRead(r.states[k], r.envs[k]))
    && (Redraws(r, k, d)
        || TooLong(BumpersAt(r.states[k], r.envs[k]), library, last - BumperRead(r.states[k], r.envs[k])))
  }

  /** Whatever is loaded between step `k` and the one before it brings nothing that fits. */
  predicate LoadsFail(r: Run, k: nat, library: Library, d: int, last: int)
    requires 0 < k < |r.envs| && k < |r.states|
  {
    if Redraws(r, k - 1, d) then DrawFails(r, k, library, d, last) else RefillFails(r, k, library, last)
  }

  /** After a wait there is less time and nothing else to play, unless the bumpers are refilled. */
  lemma WaitGoesOn(r: Run, k: nat, library: Library, d: int, last: int)
    requires k + 1 < |r.envs| == |r.events| && |r.states| == |r.envs| + 1
    requires SilentStep(r, k, d, last) && SilentStep(r, k + 1, d, last)
    requires SameTracks(r.envs[k].library, library) && SameTracks(r.envs[k + 1].library, library)
    requires Waits(r.events[k])
    ensures !Redraws(r, k + 1, d) && (Waits(r.events[k + 1]) <==> RefillFails(r, k + 1, library, last))
  {
    var s, e, t, f := r.states[k], r.envs[k], r.states[k + 1], r.envs[k + 1];
    TooLongLater(s.mainshow, e.library, f.library, library, last - MainRead(s, e), last - MainRead(t, f));
    TooLongLater(t.bumpers, e.library, f.library, library, last - BumperRead(s, e), last - BumperRead(t, f));
    TooLongForSame(f.bumpersBefore, f.library, library, last - BumperRead(t, f));
  }

  /** After a draw the next step has the mainshow drawn and the same bumpers, which nobody has looked at. */
  lemma DrawGoesOn(r: Run, k: nat, library: Library, d: int, last: int)
    requires k + 1 < |r.envs| == |r.events| && |r.states| == |r.envs| + 1
    requires SilentStep(r, k, d, last) && SilentStep(r, k + 1, d, last)
    requires SameTracks(r.envs[k + 1].library, library)
    requires r.events[k].DrewMainshow?
    ensures Silent(r.events[k + 1]) <==> DrawFails(r, k + 1, library, d, last)
  {
    var t, f := r.states[k + 1], r.envs[k + 1];
    TooLongForSame(t.mainshow, f.library, library, last - MainRead(t, f));
    TooLongForSame(BumpersAt(t, f), f.library, library, last - BumperRead(t, f));
    if Live(t.mainshow) == [] {
      NoneLeft(t.mainshow, library, last - MainRead(t, f));
    }
  }

  lemma SilenceGoesOn(r: Run, k: nat, library: Library, d: int, last: int)
    requires k + 1 < |r.envs| == |r.events| && |r.states| == |r.envs| + 1
    requires SilentStep(r, k, d, last) && SilentStep(r, k + 1, d, last)
    requires SameTracks(r.envs[k].library, library) && SameTracks(r.envs[k + 1].library, library)
    requires Silent(r.events[k])
    ensures Silent(r.events[k + 1]) <==> LoadsFail(r, k + 1, library, d, last)
  {
    if r.events[k].DrewMainshow? {
      DrawGoesOn(r, k, library, d, last);
    } else {
      WaitGoesOn(r, k, library, d, last);
    }
  }

  /** Every step from `i` up to `k` is silent; every one waits; every one draws. */
  predicate AllSilent(r: Run, i: nat, k: nat)
    requires i <= k <= |r.envs| == |r.events|
  {
    forall j :: i <= j < k ==> Silent(r.events[j])
  }

  predicate AllWait(r: Run, i: nat, k: nat)
    requires i <= k <= |r.envs| == |r.events|
  {
    forall j :: i <= j < k ==> Waits(r.events[j])
  }

  predicate AllDraw(r: Run, i: nat, k: nat)
    requires i <= k <= |r.envs| == |r.events|
  {
    forall j :: i <= j < k ==> r.events[j].DrewMainshow?
  }

  /** If a link that holds is followed by another exactly if that is let, all hold if and only if all are let. */
  lemma {:induction false} Chain(i: nat, k: nat, holds: nat -> bool, let: nat -> bool)
    requires i < k && holds(i)
    requires forall j :: i <= j < k - 1 && holds(j) ==> (holds(j + 1) <==> let(j + 1))
    ensures (forall j :: i <= j < k ==> holds(j)) <==> (forall j :: i < j < k ==> let(j))
    decreases k
  {
    if i + 1 < k {
      Chain(i, k - 1, holds, let);
      assert (forall j :: i <= j < k ==> holds(j)) <==> (forall j :: i <= j < k - 1 ==> holds(j)) && holds(k - 1);
      assert (forall j :: i <= j < k - 1 ==> holds(j)) ==> holds(k - 2);
      assert (forall j :: i < j < k ==> let(j)) <==> (forall j :: i < j < k - 1 ==> let(j)) && let(k - 1);
    }
  }

  /** The link from one silent step to the next, in a stretch before one deadline. */
  lemma SilenceLink(r: Run, i: nat, j: nat, library: Library, d: int, last: int)
    requires r.Quiet() && i <= j && j + 1 < |r.envs| && NoBlock(r, i, j + 2)
    requires DueAt(r.c, r.states[i]) == Some(d) && last == LastEnd(r.c, r.states[i])
    requires SameTracks(r.envs[j].library, library) && SameTracks(r.envs[j + 1].library, library)
    ensures Silent(r.events[j]) ==> (Silent(r.events[j + 1]) <==> LoadsFail(r, j + 1, library, d, last))
    ensures Waits(r.events[j]) ==> (Waits(r.events[j + 1]) <==> RefillFails(r, j + 1, library, last))
  {
    SilentStepAt(r, i, j, d, last);
    SilentStepAt(r, i, j + 1, d, last);
    if Silent(r.events[j]) {
      SilenceGoesOn(r, j, library, d, last);
    }
    if Waits(r.events[j]) {
      WaitGoesOn(r, j, library, d, last);
    }
  }

  lemma SilenceChain(r: Run, i: nat, k: nat, let: nat -> bool)
    requires i < k <= |r.envs| == |r.events| && Silent(r.events[i])
    requires forall j :: i <= j < k - 1 && Silent(r.events[j]) ==> (Silent(r.events[j + 1]) <==> let(j + 1))
    ensures AllSilent(r, i, k) <==> forall j :: i < j < k ==> let(j)
  {
    var holds := (j: nat) => j < |r.events| && Silent(r.events[j]);
    Chain(i, k, holds, let);
    assert forall j :: i <= j < k ==> (holds(j) <==> Silent(r.events[j]));
  }

  lemma WaitChain(r: Run, i: nat, k: nat, let: nat -> bool)
    requires i < k <= |r.envs| == |r.events| && Waits(r.events[i])
    requires forall j :: i <= j < k - 1 && Waits(r.events[j]) ==> (Waits(r.events[j + 1]) <==> let(j + 1))
    ensures AllWait(r, i, k) <==> forall j :: i < j < k ==> let(j)
  {
    var holds := (j: nat) => j < |r.events| && Waits(r.events[j]);
    Chain(i, k, holds, let);
    assert forall j :: i <= j < k ==> (holds(j) <==> Waits(r.events[j]));
  }

  /**
   * Exactly how long silence lasts, on unchanged tracks: once a pending step is silent, all steps up to the
   * block are, if and only if nothing that is loaded meanwhile fits: no mainshow drawn, no fresh bumpers, and,
   * when the drawing stops because the deadline is near, not the bumpers at hand.
   */
  lemma SilenceLastsIff(r: Run, i: nat, k: nat, library: Library)
    requires r.Quiet() && i < k <= |r.envs| && NoBlock(r, i, k) && DueAt(r.c, r.states[i]).Some?
    requires forall j :: i <= j < k ==> SameTracks(r.envs[j].library, library)
    requires Silent(r.events[i])
    ensures var d, last := DueAt(r.c, r.states[i]).value, LastEnd(r.c, r.states[i]);
            AllSilent(r, i, k) <==> forall j :: i < j < k ==> LoadsFail(r, j, library, d, last)
  {
    var d, last := DueAt(r.c, r.states[i]).value, LastEnd(r.c, r.states[i]);
    var let := (j: nat) => 0 < j < |r.envs| && LoadsFail(r, j, library, d, last);
    forall j | i <= j < k - 1 && Silent(r.events[j]) ensures Silent(r.events[j + 1]) <==> let(j + 1) {
      SilenceLink(r, i, j, library, d, last);
    }
    SilenceChain(r, i, k, let);
    assert forall j :: i < j < k ==> (let(j) <==> LoadsFail(r, j, library, d, last));
  }

  /**
   * Once a step waits, no later one before the block draws, and all of them wait unless one that has to
   * refill its bumpers is given some that fit. It does not matter how far the deadline is.
   */
  lemma WaitLastsIff(r: Run, i: nat, k: nat, library: Library)
    requires r.Quiet() && i < k <= |r.envs| && NoBlock(r, i, k) && DueAt(r.c, r.states[i]).Some?
    requires forall j :: i <= j < k ==> SameTracks(r.envs[j].library, library)
    requires Waits(r.events[i])
    ensures var last := LastEnd(r.c, r.states[i]);
            AllWait(r, i, k) <==> forall j :: i < j < k ==> RefillFails(r, j, library, last)
  {
    var d, last := DueAt(r.c, r.states[i]).value, LastEnd(r.c, r.states[i]);
    var let := (j: nat) => j < |r.envs| && RefillFails(r, j, library, last);
    forall j | i <= j < k - 1 && Waits(r.events[j]) ensures Waits(r.events[j + 1]) <==> let(j + 1) {
      SilenceLink(r, i, j, library, d, last);
    }
    WaitChain(r, i, k, let);
    assert forall j :: i < j < k ==> (let(j) <==> RefillFails(r, j, library, last));
  }

  // ---- Drawing without end -------------------------------------------------------------------

  /** The mainshow that step `j` has if every step from `i` on draws one. */
  function DrawnAt(r: Run, i: nat, j: nat): seq<int>
    requires i <= j < |r.envs| && j < |r.states|
  {
    if j == i then r.states[i].mainshow else r.envs[j - 1].drawnMainshow
  }

  /** Step `j` finds the mainshow it has empty and its deadline far. */
  predicate EmptyAndFar(r: Run, i: nat, j: nat)
    requires i <= j < |r.envs| && j < |r.states|
  {
    Live(DrawnAt(r, i, j)) == [] && Far(r, j, Deadline(r, j))
  }

  lemma DrawsAgainIff(r: Run, i: nat, k: nat)
    requires r.Quiet() && i <= k < |r.envs| && NoBlock(r, i, k + 1)
    requires i < k ==> r.events[k - 1].DrewMainshow?
    ensures r.events[k].DrewMainshow? <==> EmptyAndFar(r, i, k)
  {
    SilentIff(r, k);
    if i < k {
      SilentKeeps(r, k - 1);
    }
  }

  /**
   * Exactly how long the loop does nothing but draw, with or without something pending: as long as what it
   * draws is empty and the deadline far. No condition is put on the library or on the bumpers: with no
   * mainshow to be had, a station is silent although it has bumpers that fit.
   */
  lemma {:induction false} DrawingLastsIff(r: Run, i: nat, k: nat)
    requires r.Quiet() && i <= k <= |r.envs| && NoBlock(r, i, k)
    ensures AllDraw(r, i, k) <==> forall j :: i <= j < k ==> EmptyAndFar(r, i, j)
    decreases k
  {
    if i < k {
      DrawingLastsIff(r, i, k - 1);
      assert AllDraw(r, i, k) <==> AllDraw(r, i, k - 1) && r.events[k - 1].DrewMainshow?;
      if AllDraw(r, i, k - 1) {
        DrawsAgainIff(r, i, k - 1);
      }
    }
  }

  // ---- Dead lists ----------------------------------------------------------------------------

  /** None of these ids is among the tracks there are. */
  predicate Gone(ids: seq<int>, library: Library) {
    forall j :: 0 <= j < |ids| ==> ids[j] !in library
  }

  lemma GoneIsTooLong(ids: seq<int>, library: Library, seconds: int)
    requires Gone(ids, library)
    ensures PopFit(ids, library, seconds) == Pop(ids, None)
  {
  }

  lemma DeadOutcome(c: Settings, mainshow: seq<int>, bumpers: seq<int>, clock: int, deadline: int, last: int,
                    e: Env, after: State, v: Event)
    requires Outcome(c, mainshow, bumpers, clock, deadline, last, e, after, v) && !v.RanBlock?
    requires Gone(mainshow, e.library) && Gone(bumpers, e.library) && Live(mainshow) != []
    ensures Waits(v) && after.mainshow == mainshow && after.bumpers == bumpers
    ensures v.Idle? <==> deadline - (clock + e.dMain + e.dCutoff + e.dBumper + e.dLeft) > Max(0, c.sleepCutoff)
    ensures v.Idle? ==> after.clock == clock + e.dMain + e.dCutoff + e.dBumper + e.dLeft + e.dEnd
  {
    GoneIsTooLong(mainshow, e.library, last - (clock + e.dMain));
    GoneIsTooLong(bumpers, e.library, last - (clock + e.dMain + e.dCutoff + e.dBumper));
  }

  /** With live mainshow ids whose rows are gone, and no bumper left either, a step only waits. */
  lemma DeadStep(r: Run, k: nat)
    requires r.Valid() && k < |r.envs| && !r.events[k].RanBlock?
    requires Live(r.states[k].mainshow) != [] && Gone(r.states[k].mainshow, r.envs[k].library)
    requires Gone(BumpersAt(r.states[k], r.envs[k]), r.envs[k].library)
    ensures Waits(r.events[k])
    ensures r.states[k + 1].mainshow == r.states[k].mainshow
    ensures r.states[k + 1].bumpers == BumpersAt(r.states[k], r.envs[k])
  {
    var clock, deadline, last := AnyPassAt(r, k);
    DeadOutcome(r.c, r.states[k].mainshow, BumpersAt(r.states[k], r.envs[k]), clock, deadline, last,
                r.envs[k], r.states[k + 1], r.events[k]);
  }

  predicate From(ids: seq<int>, gone: set<int>) {
    forall j :: 0 <= j < |ids| ==> ids[j] in gone
  }

  /** At step `k` no id in `gone` has a row, and fresh bumpers are all from `gone`. */
  predicate Dead(r: Run, k: nat, gone: set<int>)
    requires k < |r.envs|
  {
    From(r.envs[k].bumpersBefore, gone) && gone !! r.envs[k].library.Keys
  }

  /**
   * A mainshow whose rows are gone never counts as empty and so is never replaced: whatever else the library
   * holds, and whatever a human plays meanwhile, nothing is heard from the loop until it runs a block.
   */
  lemma {:induction false} DeadMainshowIsSilent(r: Run, i: nat, k: nat, gone: set<int>)
    requires r.Valid() && i <= k <= |r.envs| && NoBlock(r, i, k)
    requires forall j :: i <= j < k ==> Dead(r, j, gone)
    requires Live(r.states[i].mainshow) != [] && From(r.states[i].mainshow, gone) && From(r.states[i].bumpers, gone)
    ensures r.states[k].mainshow == r.states[i].mainshow && From(r.states[k].bumpers, gone)
    ensures AllWait(r, i, k)
    decreases k - i
  {
    if i < k {
      DeadMainshowIsSilent(r, i, k - 1, gone);
      assert Dead(r, k - 1, gone);
      DeadStep(r, k - 1);
    }
  }

  // ---- Silence from an ordinary start --------------------------------------------------------

  /** The program's defaults for the flags that steer a step. */
  const DEFAULTS := Settings(Config(false, 180, 0), 200, 4)

  /** A library with one short track. */
  const ONE_TRACK: Library := map[1 := ItemRow(Some("1.mp3"), Some(1), None, None)]

  /** A second in which no playlist can be drawn as mainshow, and `bumpers` are what there is to refill with. */
  function Second(bumpers: seq<int>): Env {
    Env(ONE_TRACK, [], 0, 0, 0, 0, 0, 0, 0, 1, 0, 0, None, [], bumpers, bumpers)
  }

  /** A run of such seconds from the state the program starts in. */
  predicate NoMainshow(r: Run, now: int, schedule: seq<Requirement>, bumpers: seq<int>) {
    && r.c == DEFAULTS && r.states != [] && r.states[0] == Started(now, schedule, [])
    && forall j :: 0 <= j < |r.envs| ==> r.envs[j] == Second(bumpers)
  }

  /** After `k` steps nothing has changed but the clock, and the bumpers may have been loaded. */
  predicate Unchanged(s: State, now: int, schedule: seq<Requirement>, bumpers: seq<int>, k: nat) {
    && s.clock == now + k && s.internal == now && s.schedule == schedule
    && s.mainshow == [] && (s.bumpers == [] || s.bumpers == bumpers)
  }

  /** A step without a mainshow draws, whatever the bumpers, as long as the deadline is far. */
  lemma StepWithoutMainshow(r: Run, k: nat, now: int, schedule: seq<Requirement>, bumpers: seq<int>)
    requires r.Quiet() && k < |r.envs| && NoMainshow(r, now, schedule, bumpers) && !r.events[k].RanBlock?
    requires Unchanged(r.states[k], now, schedule, bumpers, k) && Deadline(r, k) - (now + k) >= 200
    ensures r.events[k].DrewMainshow? && Unchanged(r.states[k + 1], now, schedule, bumpers, k + 1)
    ensures BumpersAt(r.states[k], r.envs[k]) == bumpers
  {
    assert r.envs[k] == Second(bumpers);
    NoLive([]);
    NoLive(r.states[k].bumpers);
    QuietOutcome(r, k);
    QuietStep(r, k);
  }

  lemma NothingScheduled(s: State)
    requires s.schedule == []
    ensures DueAt(DEFAULTS, s).None?
  {
    if DueAt(DEFAULTS, s).Some? {
      BlockHead([], DueAt(DEFAULTS, s).value, 0);
    }
  }

  lemma {:induction false} IdleStation(r: Run, k: nat, now: int, bumpers: seq<int>)
    requires r.Quiet() && k <= |r.envs| && NoMainshow(r, now, [], bumpers)
    ensures Unchanged(r.states[k], now, [], bumpers, k)
    ensures forall j :: 0 <= j < k ==> r.events[j].DrewMainshow? && BumpersAt(r.states[j], r.envs[j]) == bumpers
  {
    if k > 0 {
      IdleStation(r, k - 1, now, bumpers);
      assert r.envs[k - 1] == Second(bumpers);
      NothingScheduled(r.states[k - 1]);
      QuietStep(r, k - 1);
      StepWithoutMainshow(r, k - 1, now, [], bumpers);
    }
  }

  /**
   * The sleep cutoff does not bound dead air, and nothing does: for every bound there is a quiet run, from the
   * state the program starts in with the default flags and nothing scheduled, in which nothing is heard for at
   * least that many seconds, although at every step the bumpers at hand fit even a single second.
   */
  lemma SilenceIsUnbounded(now: int, bound: nat) returns (r: Run)
    ensures r.Quiet() && r.c == DEFAULTS && r.states[0] == Started(now, [], [])
    ensures forall j :: 0 <= j < |r.envs| ==>
              && r.events[j].DrewMainshow? && Silent(r.events[j])
              && BumpersAt(r.states[j], r.envs[j]) == [1] && Fits(r.envs[j].library, 1, 1)
    ensures r.states[|r.envs|].clock - r.states[0].clock >= bound
  {
    r := RunExists(DEFAULTS, Started(now, [], []), seq(bound, _ => Second([1])));
    NoLive([]);
    IdleStation(r, bound, now, [1]);
  }

  /** A schedule with one requirement, due at `d`. */
  function OnceAt(d: int): seq<Requirement> {
    [Requirement(TimeSpec([], [], [], [], [], [d], 0), NoOp, false, -1, "")]
  }

  lemma DueOnceAt(d: int, s: State)
    requires s.schedule == OnceAt(d) && s.internal <= d < s.internal + WEEK
    ensures DueAt(DEFAULTS, s) == Some(d)
  {
    assert Due(s.schedule[0], d, 0);
    InBlock(s.schedule, s.schedule[0], d, 0);
    if DueAt(DEFAULTS, s).Some? {
      BlockHead(s.schedule, DueAt(DEFAULTS, s).value, 0);
    }
  }

  /** Without bumpers either, what comes after the drawing is idling. */
  lemma StepWithNothing(r: Run, k: nat, now: int, d: int)
    requires r.Quiet() && k < |r.envs| && NoMainshow(r, now, OnceAt(d), []) && now + k + 4 < d < now + WEEK
    requires Unchanged(r.states[k], now, OnceAt(d), [], k)
    ensures Silent(r.events[k]) && Unchanged(r.states[k + 1], now, OnceAt(d), [], k + 1)
  {
    DueOnceAt(d, r.states[k]);
    assert r.envs[k] == Second([]);
    NoLive([]);
    QuietStep(r, k);
    if d - (now + k) >= 200 {
      StepWithoutMainshow(r, k, now, OnceAt(d), []);
    } else {
      QuietOutcome(r, k);
    }
  }

  lemma {:induction false} RunWithNothing(r: Run, k: nat, now: int, d: int)
    requires r.Quiet() && k <= |r.envs| && NoMainshow(r, now, OnceAt(d), []) && now + |r.envs| + 4 <= d < now + WEEK
    ensures Unchanged(r.states[k], now, OnceAt(d), [], k)
    ensures forall j :: 0 <= j < k ==> Silent(r.events[j])
  {
    if k > 0 {
      RunWithNothing(r, k - 1, now, d);
      StepWithNothing(r, k - 1, now, d);
    }
  }

  /**
   * With a block pending at any distance within the week that is searched, all the time up to the sleep cutoff
   * before it can be silent: from the same start, with no mainshow to draw and an empty list of bumpers,
   * although the library has a track that fits.
   */
  lemma SilenceUpToTheDeadline(now: int, d: int) returns (r: Run)
    requires now + DEFAULTS.sleepCutoff < d < now + WEEK
    ensures r.Quiet() && r.c == DEFAULTS && r.states[0] == Started(now, OnceAt(d), [])
    ensures DueAt(r.c, r.states[0]) == Some(d)
    ensures forall j :: 0 <= j < |r.envs| ==> Silent(r.events[j]) && Fits(r.envs[j].library, 1, 1)
    ensures r.states[|r.envs|].clock == d - r.c.sleepCutoff
  {
    r := RunExists(DEFAULTS, Started(now, OnceAt(d), []), seq(d - now - 4, _ => Second([])));
    NoLive([]);
    DueOnceAt(d, r.states[0]);
    RunWithNothing(r, d - now - 4, now, d);
  }
}
