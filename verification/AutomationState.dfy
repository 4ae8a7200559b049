// One step of the automation loop: yield to a human, run what is due, or pass time until it is.

module AutomationState {
  import opened Options
  import opened Schema
  import opened Sequences
  import opened Requirements
  import opened RequirementEngine
  import opened Playlist

  /** The flags that steer a step. */
  datatype Settings = Settings(engine: Config, bumperCutoff: int, sleepCutoff: int)

  /** Everything a step reads and writes besides the database. */
  datatype State = State(
    clock: int, internal: int, schedule: seq<Requirement>,
    override: seq<int>, mainshow: seq<int>, bumpers: seq<int>)

  /** The state the program starts in at `now`, when its first draw of a mainshow gives `drawn`. */
  function Started(now: int, schedule: seq<Requirement>, drawn: seq<int>): State {
    State(now, now, schedule, [], drawn, [])
  }

  /** What another thread did before one test of the override loop: the flag it left, the ids it queued. */
  datatype Tick = Tick(manual: bool, added: seq<int>)

  /**
   * What the outside world contributes to one step. The `d` fields are the seconds that pass before the
   * respective reading of the clock; `dEnd` passes after the last action. `script` holds what other
   * threads do to the override list; once it is used up they do nothing more.
   */
  datatype Env = Env(
    library: Library,
    script: seq<Tick>, overrideTime: nat,
    dFill: nat, dTest: nat, dMain: nat, dCutoff: nat, dBumper: nat, dLeft: nat, dEnd: nat,
    playTime: nat, blockTime: nat,
    callbackMainshow: Option<seq<int>>, drawnMainshow: seq<int>,
    bumpersBefore: seq<int>, bumpersAfter: seq<int>)

  datatype Event =
    | RanBlock(deadline: int, block: seq<Requirement>, start: int)
    | PlayedMain(item: ItemData)
    | PlayedBumper(item: ItemData)
    | DrewMainshow
    | Overdue
    | Slept(seconds: int)
    | Idle

  datatype StepResult = StepResult(state: State, event: Event, ok: bool)

  // ---- Manual override -----------------------------------------------------------------------

  /** How the override loop ends: the list left, the ids popped and queued meanwhile, the rounds it took. */
  datatype Drained = Drained(ids: seq<int>, popped: seq<int>, added: seq<int>, rounds: nat)

  function Queued(script: seq<Tick>): seq<int> {
    if script == [] then [] else script[0].added
  }

  predicate Manual(script: seq<Tick>) {
    script != [] && script[0].manual
  }

  function Later(script: seq<Tick>): seq<Tick> {
    if script == [] then [] else script[1..]
  }

  function Head(live: seq<int>): seq<int> {
    if live == [] then [] else [live[0]]
  }

  function Drain(ids: seq<int>, script: seq<Tick>): Drained
    decreases |script|, |Live(ids)|
  {
    var all := ids + Queued(script);
    LiveConcat(ids, Queued(script));
    PopFrontTakesHead(all);
    if !Manual(script) && Live(all) == [] then Drained(all, [], Queued(script), 0)
    else
      var d := Drain(PopFrontIds(all), Later(script));
      Drained(d.ids, Head(Live(all)) + d.popped, Queued(script) + d.added, d.rounds + 1)
  }

  /** One round of the loop, seen through the live ids alone. */
  lemma DrainRound(ids: seq<int>, script: seq<Tick>)
    requires Manual(script) || Live(ids) + Live(Queued(script)) != []
    ensures var all, d := ids + Queued(script), Drain(ids, script);
            var after := Drain(PopFrontIds(all), Later(script));
            && d.ids == after.ids && d.rounds == after.rounds + 1 && d.added == Queued(script) + after.added
            && d.popped == Head(Live(all)) + after.popped
            && Head(Live(all)) + Live(PopFrontIds(all)) == Live(ids) + Live(Queued(script))
  {
    var all := ids + Queued(script);
    LiveConcat(ids, Queued(script));
    PopFrontTakesHead(all);
    HeadAndRest(Live(all), Live(PopFrontIds(all)));
  }

  /** Exactly when the loop goes round, and what one round does: it pops the head of what is there by then. */
  lemma DrainOneRound(ids: seq<int>, script: seq<Tick>)
    ensures var added := if script == [] then [] else script[0].added;
            var all, d := ids + added, Drain(ids, script);
            if (script != [] && script[0].manual) || Live(ids) + Live(added) != [] then
              var rest := Drain(PopFrontIds(all), if script == [] then [] else script[1..]);
              && d.rounds == rest.rounds + 1 && d.ids == rest.ids
              && d.popped == (if Live(all) == [] then [] else [Live(all)[0]]) + rest.popped
            else d.rounds == 0 && d.ids == all && d.popped == []
  {
    if Manual(script) || Live(ids) + Live(Queued(script)) != [] {
      DrainRound(ids, script);
    } else {
      DrainDone(ids, script);
    }
  }

  lemma HeadAndRest(live: seq<int>, rest: seq<int>)
    requires rest == if live == [] then [] else live[1..]
    ensures Head(live) + rest == live
  {
  }

  lemma DrainDone(ids: seq<int>, script: seq<Tick>)
    requires !Manual(script) && Live(ids) + Live(Queued(script)) == []
    ensures Drain(ids, script) == Drained(ids + Queued(script), [], Queued(script), 0)
    ensures Live(ids) == [] && Live(Queued(script)) == [] && Live(ids + Queued(script)) == []
  {
    LiveConcat(ids, Queued(script));
    assert |Live(ids)| == 0;
  }

  lemma Regroup(head: seq<int>, rest: seq<int>, a: seq<int>, b: seq<int>, c: seq<int>)
    requires head + rest == a + b
    ensures head + (rest + c) == a + (b + c)
  {
    assert head + (rest + c) == (head + rest) + c;
  }

  /**
   * The override list is a lossless queue: whatever other threads do meanwhile, the ids popped are the
   * live ids there at the start and then those queued, in that order, and nothing live is left.
   */
  lemma {:induction false} DrainIsFifo(ids: seq<int>, script: seq<Tick>)
    ensures var d := Drain(ids, script); d.popped == Live(ids) + Live(d.added) && Live(d.ids) == []
    decreases |script|, |Live(ids)|
  {
    var q := Queued(script);
    if Manual(script) || Live(ids) + Live(q) != [] {
      var all := ids + q;
      DrainRound(ids, script);
      DrainShrinks(ids, script);
      DrainIsFifo(PopFrontIds(all), Later(script));
      var added := Drain(PopFrontIds(all), Later(script)).added;
      Regroup(Head(Live(all)), Live(PopFrontIds(all)), Live(ids), Live(q), Live(added));
      LiveConcat(q, added);
    } else {
      DrainDone(ids, script);
    }
  }

  /** What other threads queue before the first `n` tests. */
  function QueuedBy(script: seq<Tick>, n: nat): seq<int> {
    if n == 0 then [] else Queued(script) + QueuedBy(Later(script), n - 1)
  }

  lemma {:induction false} QueuedByAt(script: seq<Tick>, n: nat)
    ensures QueuedBy(script, n + 1) == QueuedBy(script, n) + if n < |script| then script[n].added else []
    decreases n
  {
    if n > 0 {
      QueuedByAt(Later(script), n - 1);
      var last := if n < |script| then script[n].added else [];
      assert n < |script| ==> Later(script)[n - 1] == script[n];
      assert (Queued(script) + QueuedBy(Later(script), n - 1)) + last
          == Queued(script) + (QueuedBy(Later(script), n - 1) + last);
    }
  }

  /**
   * The loop tests once more than it goes round, takes in what is queued before each test, and stops at a
   * test at which no human is in control; it goes round at least once per id popped.
   */
  lemma {:induction false} DrainStops(ids: seq<int>, script: seq<Tick>)
    ensures var d := Drain(ids, script);
            && d.added == QueuedBy(script, d.rounds + 1)
            && (d.rounds < |script| ==> !script[d.rounds].manual)
            && |d.popped| <= d.rounds
    decreases |script|, |Live(ids)|
  {
    if Manual(script) || Live(ids) + Live(Queued(script)) != [] {
      DrainRound(ids, script);
      DrainShrinks(ids, script);
      DrainStops(PopFrontIds(ids + Queued(script)), Later(script));
    } else {
      DrainDone(ids, script);
      assert Queued(script) + QueuedBy(Later(script), 0) == Queued(script);
    }
  }

  lemma DrainShrinks(ids: seq<int>, script: seq<Tick>)
    requires Manual(script) || Live(ids) + Live(Queued(script)) != []
    ensures |Later(script)| < |script|
            || (script == [] && |Live(PopFrontIds(ids + Queued(script)))| < |Live(ids)|)
  {
    LiveConcat(ids, Queued(script));
    PopFrontTakesHead(ids + Queued(script));
  }

  /** Left alone, with the flag off, the loop ends after exactly as many rounds as there are live ids. */
  lemma {:induction false} DrainAlone(ids: seq<int>)
    ensures Drain(ids, []).popped == Live(ids) && Drain(ids, []).rounds == |Live(ids)|
    decreases |Live(ids)|
  {
    assert ids + [] == ids;
    PopFrontTakesHead(ids);
    if Live(ids) != [] {
      DrainAlone(PopFrontIds(ids));
    }
  }

  /** What is heard of a popped id: its track, if the row exists. */
  function Play(library: Library, id: int): seq<ItemData> {
    if id in library then [RowData(id, library[id])] else []
  }

  /** What is heard of a list of popped ids. */
  function Plays(library: Library, popped: seq<int>): seq<ItemData> {
    if popped == [] then [] else Play(library, popped[0]) + Plays(library, popped[1..])
  }

  /** Heard are exactly the popped ids that have rows, in the order popped. */
  lemma {:induction false} PlaysAre(library: Library, popped: seq<int>)
    ensures popped == [] ==> Plays(library, popped) == []
    ensures forall item :: item in Plays(library, popped) <==>
              exists id :: id in popped && id in library && item == RowData(id, library[id])
    ensures |Plays(library, popped)| == |Filter(popped, id => id in library)|
  {
    if popped != [] {
      var n := |popped| - 1;
      PlaysAre(library, popped[1..]);
      assert popped == [popped[0]] + popped[1..];
      FilterConcat([popped[0]], popped[1..], id => id in library);
      assert [popped[0]][..0] == [];
    }
  }

  lemma {:induction false} PlaysConcat(library: Library, a: seq<int>, b: seq<int>)
    ensures Plays(library, a + b) == Plays(library, a) + Plays(library, b)
  {
    if a == [] {
      assert a + b == b;
    } else {
      PlaysConcat(library, a[1..], b);
      assert (a + b)[0] == a[0] && (a + b)[1..] == a[1..] + b;
    }
  }

  lemma HeardSoFar(library: Library, whole: seq<int>, plays: seq<ItemData>, head: seq<int>, rest: seq<int>)
    requires Plays(library, whole) == plays + Plays(library, head + rest)
    ensures Plays(library, whole) == (plays + Plays(library, head)) + Plays(library, rest)
  {
    PlaysConcat(library, head, rest);
  }

  /** A fresh item popped off the front is heard exactly if the head of the queue has a row. */
  lemma HeardFromHead(library: Library, ids: seq<int>)
    ensures var data := PopFrontData(ids, library, CLEARED);
            Plays(library, Head(Live(ids))) == if data.filename.Some? then [data] else []
  {
    PopFrontTakesHead(ids);
    var head := Head(Live(ids));
    assert head != [] ==> head[1..] == [];
  }

  function AfterOverride(s: State, e: Env): State {
    var d := Drain(s.override, e.script);
    if d.rounds == 0 then s.(override := d.ids)
    else s.(override := d.ids, clock := s.clock + e.overrideTime, internal := s.clock + e.overrideTime)
  }

  // ---- One step, as a function ---------------------------------------------------------------

  /** The state in which a step tests the deadline, and the search result it tests. */
  function AtTest(s: State, e: Env): State {
    var s1 := Rebumpered(AfterOverride(s, e), e);
    s1.(clock := s1.clock + e.dFill + e.dTest)
  }

  function Search(c: Settings, s: State, e: Env): Next {
    var s1 := AfterOverride(s, e);
    NextFrom(c.engine, s1.schedule, s1.internal, s1.clock + e.dFill)
  }

  function Step(c: Settings, s: State, e: Env): StepResult {
    if AtTest(s, e).clock >= Search(c, s, e).deadline then BlockStep(AtTest(s, e), Search(c, s, e), e)
    else MainshowStep(c, AtTest(s, e), Search(c, s, e), e)
  }

  function Rebumpered(s: State, e: Env): State {
    if Live(s.bumpers) == [] then s.(bumpers := e.bumpersBefore) else s
  }

  function BlockStep(s: State, next: Next, e: Env): StepResult {
    var finished := s.clock + e.blockTime;
    StepResult(
      s.(clock := finished + e.dEnd,
         internal := AfterBlock(s.internal, next.block, finished),
         mainshow := if e.callbackMainshow.Some? then e.callbackMainshow.value else s.mainshow,
         bumpers := e.bumpersAfter),
      RanBlock(next.deadline, next.block, s.clock), true)
  }

  function MainshowStep(c: Settings, s0: State, next: Next, e: Env): StepResult {
    var s := s0.(clock := s0.clock + e.dMain);
    var pop := PopFit(s.mainshow, e.library, next.deadline - s.clock + next.gap);
    if pop.item.Some? then
      StepResult(s.(clock := s.clock + e.playTime + e.dEnd, mainshow := pop.ids), PlayedMain(pop.item.value), true)
    else BumperStep(c, s, next, e)
  }

  function BumperStep(c: Settings, s0: State, next: Next, e: Env): StepResult {
    var s := s0.(clock := s0.clock + e.dCutoff);
    if next.deadline - s.clock >= c.bumperCutoff && Live(s.mainshow) == [] then
      StepResult(s.(clock := s.clock + e.dEnd, mainshow := e.drawnMainshow), DrewMainshow, false)
    else
      var t := s.clock + e.dBumper;
      var pop := PopFit(s.bumpers, e.library, next.deadline - t + next.gap);
      if pop.item.Some? then
        StepResult(s.(clock := t + e.playTime + e.dEnd, bumpers := pop.ids), PlayedBumper(pop.item.value), true)
      else WaitStep(c, s.(clock := t), next, e)
  }

  function WaitStep(c: Settings, s: State, next: Next, e: Env): StepResult {
    var u := s.clock + e.dLeft;
    var left := next.deadline - u;
    if left <= 0 then StepResult(s.(clock := u + e.dEnd), Overdue, true)
    else if left <= c.sleepCutoff then StepResult(s.(clock := u + left + e.dEnd), Slept(left), true)
    else StepResult(s.(clock := u + e.dEnd), Idle, false)
  }

  /** False goes with a mainshow drawn and with idling, true with everything else. */
  predicate Answers(r: StepResult) {
    !r.ok <==> r.event.DrewMainshow? || r.event.Idle?
  }

  lemma BumperAnswers(c: Settings, s: State, next: Next, e: Env)
    ensures Answers(BumperStep(c, s, next, e))
  {
  }

  lemma MainshowAnswers(c: Settings, s: State, next: Next, e: Env)
    ensures Answers(MainshowStep(c, s, next, e))
  {
    BumperAnswers(c, s.(clock := s.clock + e.dMain), next, e);
  }

  lemma BlockAnswers(s: State, next: Next, e: Env)
    ensures Answers(BlockStep(s, next, e))
  {
  }

  /** A step answers false exactly if it drew a mainshow or idled: there was time to fill and it did not. */
  lemma AnswersFalseIff(c: Settings, s: State, e: Env)
    ensures !Step(c, s, e).ok <==> Step(c, s, e).event.DrewMainshow? || Step(c, s, e).event.Idle?
  {
    BlockAnswers(AtTest(s, e), Search(c, s, e), e);
    MainshowAnswers(c, AtTest(s, e), Search(c, s, e), e);
  }

  // ---- The object ----------------------------------------------------------------------------

  class AutomationState {
    const settings: Settings
    const engine: Engine
    const overridePlaylist: Playlist
    const mainshow: Playlist
    const bumperlist: Playlist
    var clock: int

    ghost predicate Valid() {
      && engine.config == settings.engine
      && overridePlaylist != mainshow && overridePlaylist != bumperlist && mainshow != bumperlist
    }

    ghost function Abs(): State
      reads this, engine, overridePlaylist, mainshow, bumperlist
    {
      State(clock, engine.internalTime, engine.schedule, overridePlaylist.ids, mainshow.ids, bumperlist.ids)
    }

    constructor (settings: Settings, schedule: seq<Requirement>, now: int, drawn: seq<int>)
      ensures Valid() && this.settings == settings
      ensures Abs() == Started(now, schedule, drawn)
      ensures clock == engine.internalTime == now && engine.schedule == schedule
      ensures mainshow.ids == drawn && overridePlaylist.ids == bumperlist.ids == []
      ensures fresh(engine) && fresh(overridePlaylist) && fresh(mainshow) && fresh(bumperlist)
    {
      this.settings := settings;
      clock := now;
      engine := new Engine(settings.engine, schedule, now);
      overridePlaylist := new Playlist();
      mainshow := new Playlist();
      bumperlist := new Playlist();
      new;
      mainshow.Load(drawn);
    }

    method ReadClock(elapsed: nat) returns (now: int)
      modifies `clock
      ensures clock == old(clock) + elapsed && now == clock
    {
      clock := clock + elapsed;
      now := clock;
    }

    /** Serve the override list for as long as a human is in control or something is queued. */
    method ManualOverride(e: Env) returns (did: bool, plays: seq<ItemData>)
      requires Valid()
      modifies overridePlaylist
      ensures var d := Drain(old(overridePlaylist.ids), e.script);
              && overridePlaylist.ids == d.ids && did == (d.rounds > 0)
              && plays == Plays(e.library, d.popped)
    {
      did, plays := false, [];
      var script := e.script;
      ghost var whole := Drain(overridePlaylist.ids, script);
      while true
        invariant var d := Drain(overridePlaylist.ids, script);
                  && d.ids == whole.ids && (if did then whole.rounds > d.rounds else whole.rounds == d.rounds)
                  && Plays(e.library, whole.popped) == plays + Plays(e.library, d.popped)
        decreases |script|, |Live(overridePlaylist.ids)|
      {
        ghost var ids := overridePlaylist.ids;
        var manual, added := Manual(script), Queued(script);
        LiveConcat(ids, added);
        overridePlaylist.Load(overridePlaylist.ids + added);
        var size := overridePlaylist.Size();
        if !(manual || size > 0) {
          DrainDone(ids, script);
          break;
        }
        DrainRound(ids, script);
        DrainShrinks(ids, script);
        did := true;
        var next := new PlayableItem();
        ghost var head := Head(Live(overridePlaylist.ids));
        HeardFromHead(e.library, overridePlaylist.ids);
        overridePlaylist.PopFront(e.library, next);
        script := Later(script);
        HeardSoFar(e.library, whole.popped, plays, head, Drain(overridePlaylist.ids, script).popped);
        if next.data.filename.Some? {
          plays := plays + [next.data];
        } else {
          assert plays + [] == plays;
        }
      }
    }

    method RunDue(next: Next, e: Env) returns (ok: bool, event: Event)
      requires Valid()
      modifies `clock, engine, mainshow, bumperlist
      ensures StepResult(Abs(), event, ok) == BlockStep(old(Abs()), next, e)
    {
      var start, finished := clock, clock + e.blockTime;
      var _ := engine.RunBlock(next.deadline, next.block, finished);
      if e.callbackMainshow.Some? {
        mainshow.Load(e.callbackMainshow.value);
      }
      bumperlist.Load(e.bumpersAfter);
      clock := finished + e.dEnd;
      return true, RanBlock(next.deadline, next.block, start);
    }

    /** Pop into a fresh item; it holds something to play exactly if it then has a file name. */
    method TryPop(list: Playlist, library: Library, limit: int) returns (item: Option<ItemData>)
      modifies list
      ensures Pop(list.ids, item) == PopFit(old(list.ids), library, limit)
    {
      var result := new PlayableItem();
      list.PopWithTimelimit(library, limit, result);
      item := if result.data.filename.Some? then Some(result.data) else None;
    }

    method PlayMainshow(next: Next, e: Env) returns (ok: bool, event: Event)
      requires Valid()
      modifies `clock, mainshow, bumperlist
      ensures StepResult(Abs(), event, ok) == MainshowStep(settings, old(Abs()), next, e)
    {
      var now := ReadClock(e.dMain);
      var track := TryPop(mainshow, e.library, next.deadline - now + next.gap);
      if track.Some? {
        clock := clock + e.playTime + e.dEnd;
        return true, PlayedMain(track.value);
      }
      assert Abs() == old(Abs()).(clock := now);
      ok, event := PlayBumpers(next, e);
    }

    method PlayBumpers(next: Next, e: Env) returns (ok: bool, event: Event)
      requires Valid()
      modifies `clock, mainshow, bumperlist
      ensures StepResult(Abs(), event, ok) == BumperStep(settings, old(Abs()), next, e)
    {
      var now := ReadClock(e.dCutoff);
      var size := mainshow.Size();
      if next.deadline - now >= settings.bumperCutoff && size == 0 {
        mainshow.Load(e.drawnMainshow);
        clock := clock + e.dEnd;
        return false, DrewMainshow;
      }
      now := ReadClock(e.dBumper);
      var bumper := TryPop(bumperlist, e.library, next.deadline - now + next.gap);
      if bumper.Some? {
        clock := clock + e.playTime + e.dEnd;
        return true, PlayedBumper(bumper.value);
      }
      ok, event := WaitOut(next, e);
    }

    method WaitOut(next: Next, e: Env) returns (ok: bool, event: Event)
      requires Valid()
      modifies `clock
      ensures StepResult(Abs(), event, ok) == WaitStep(settings, old(Abs()), next, e)
    {
      var now := ReadClock(e.dLeft);
      var left := next.deadline - now;
      if left <= 0 {
        clock := clock + e.dEnd;
        return true, Overdue;
      }
      if left <= settings.sleepCutoff {
        clock := clock + left + e.dEnd;
        return true, Slept(left);
      }
      clock := clock + e.dEnd;
      return false, Idle;
    }

    /** Yield to a human; requirements that came due meanwhile are skipped. */
    method Yield(e: Env)
      requires Valid()
      modifies `clock, engine, overridePlaylist
      ensures Abs() == AfterOverride(old(Abs()), e)
    {
      var did, _ := ManualOverride(e);
      if did {
        var now := ReadClock(e.overrideTime);
        engine.SetTime(now);
      }
    }

    method RefillBumpers(e: Env)
      requires Valid()
      modifies bumperlist
      ensures Abs() == Rebumpered(old(Abs()), e)
    {
      var size := bumperlist.Size();
      if size == 0 {
        bumperlist.Load(e.bumpersBefore);
      }
    }

    /** Find the next block; the clock is read once before the search and once for the deadline test. */
    method FindNext(e: Env) returns (next: Next)
      requires Valid()
      modifies `clock
      ensures Abs() == old(Abs()).(clock := old(clock) + e.dFill + e.dTest)
      ensures next == NextFrom(settings.engine, engine.schedule, engine.internalTime, old(clock) + e.dFill)
    {
      var now := ReadClock(e.dFill);
      next := engine.FillNext([], now);
      now := ReadClock(e.dTest);
    }

    /** Advance by one step; `event` is what was done, besides what the override loop played. */
    method RunOnce(e: Env) returns (ok: bool, event: Event)
      requires Valid()
      modifies this, engine, overridePlaylist, mainshow, bumperlist
      ensures Valid()
      ensures StepResult(Abs(), event, ok) == Step(settings, old(Abs()), e)
    {
      Yield(e);
      RefillBumpers(e);
      var next := FindNext(e);
      assert Abs() == AtTest(old(Abs()), e) && next == Search(settings, old(Abs()), e);
      if clock >= next.deadline {
        ok, event := RunDue(next, e);
      } else {
        ok, event := PlayMainshow(next, e);
      }
    }
  }
}
