// The engine that finds the next block of due requirements and advances its internal time.

module RequirementEngine {
  import opened Options
  import opened LocalTime
  import opened Requirements
  import opened AdvanceFold
  import opened Sequences

  const DEFAULT_WAIT := 3600
  const INITIAL_GAP := 86400 * 365 * 20

  datatype Config = Config(implicitLegalId: bool, legalIdGap: int, offset: int)

  /** What one search returns: the block to run, the instant it is due, and how late it may be. */
  datatype Next = Next(block: seq<Requirement>, deadline: int, gap: int)

  /** A callback made while a block runs. */
  datatype Call = Call(deadline: int, requirement: Requirement)

  // ---- The search, as a specification --------------------------------------------------------

  function ImplicitLegalId(c: Config): Requirement {
    Requirement(TimeSpec([0], [0], [], [], [], [], c.legalIdGap), LegalId, true, -1, "")
  }

  function Effective(c: Config, schedule: seq<Requirement>): seq<Requirement> {
    if c.implicitLegalId then [ImplicitLegalId(c)] + schedule else schedule
  }

  /** The requirements due at `t`, in schedule order. */
  function DueBlock(reqs: seq<Requirement>, t: int, offset: int): seq<Requirement> {
    Filter(reqs, r => Due(r, t, offset))
  }

  function MinGap(block: seq<Requirement>): (g: int)
    ensures g <= INITIAL_GAP && forall r :: r in block ==> g <= r.when.gap
    ensures g == INITIAL_GAP || exists r :: r in block && g == r.when.gap
  {
    if block == [] then INITIAL_GAP
    else
      var n := |block| - 1;
      var g := MinGap(block[..n]);
      if block[n].when.gap < g then block[n].when.gap else g
  }

  /** The least instant in [from, end) at which something is due. */
  function EarliestDue(reqs: seq<Requirement>, offset: int, from: int, end: int): (r: Option<int>)
    requires from <= end
    ensures r.None? ==> (forall t :: from <= t < end ==> DueBlock(reqs, t, offset) == [])
    ensures r.Some? ==> from <= r.value < end && DueBlock(reqs, r.value, offset) != []
    ensures r.Some? ==> (forall t :: from <= t < r.value ==> DueBlock(reqs, t, offset) == [])
    decreases end - from
  {
    if from == end then None
    else if DueBlock(reqs, from, offset) != [] then Some(from)
    else EarliestDue(reqs, offset, from + 1, end)
  }

  /** The earliest due instant within a week of the internal time. */
  function Pending(c: Config, schedule: seq<Requirement>, internal: int): (r: Option<int>)
    ensures r.Some? ==> internal <= r.value < internal + WEEK
  {
    EarliestDue(Effective(c, schedule), c.offset, internal, internal + WEEK)
  }

  function NextFrom(c: Config, schedule: seq<Requirement>, internal: int, now: int): Next {
    match Pending(c, schedule, internal)
    case Some(d) =>
      var block := DueBlock(Effective(c, schedule), d, c.offset);
      Next(block, d, MinGap(block))
    case None => Next([], now + DEFAULT_WAIT, INITIAL_GAP)
  }

  function Advances(block: seq<Requirement>): (s: seq<int>)
    ensures |s| == |block| && forall k :: 0 <= k < |s| ==> s[k] == block[k].advance
  {
    seq(|block|, k requires 0 <= k < |block| => block[k].advance)
  }

  /** The internal time after a block, when the callbacks finish at `finished`. */
  function AfterBlock(internal: int, block: seq<Requirement>, finished: int): int {
    var a := Fold(Advances(block));
    if a < 0 then finished else internal + a
  }

  // ---- Properties of the search --------------------------------------------------------------

  /** A block holds exactly what is due, and filtering distributes over concatenation: the order is kept. */
  lemma DueBlockFilters(a: seq<Requirement>, b: seq<Requirement>, t: int, offset: int)
    ensures forall r :: r in DueBlock(a, t, offset) <==> r in a && Due(r, t, offset)
    ensures DueBlock(a + b, t, offset) == DueBlock(a, t, offset) + DueBlock(b, t, offset)
  {
    FilterMembers(a, r => Due(r, t, offset));
    FilterConcat(a, b, r => Due(r, t, offset));
  }

  lemma BlockHead(reqs: seq<Requirement>, t: int, offset: int)
    requires DueBlock(reqs, t, offset) != []
    ensures var r := DueBlock(reqs, t, offset)[0]; r in reqs && Due(r, t, offset)
  {
    DueBlockFilters(reqs, [], t, offset);
    assert DueBlock(reqs, t, offset)[0] in DueBlock(reqs, t, offset);
  }

  lemma InBlock(reqs: seq<Requirement>, r: Requirement, t: int, offset: int)
    requires r in reqs && Due(r, t, offset)
    ensures DueBlock(reqs, t, offset) != []
  {
    DueBlockFilters(reqs, [], t, offset);
    assert r in DueBlock(reqs, t, offset);
  }

  /** The least due instant is found whatever lower bound at or below it the search starts from. */
  lemma {:induction false} EarliestDueIs(reqs: seq<Requirement>, offset: int, from: int, end: int, d: int)
    requires from <= d < end
    requires DueBlock(reqs, d, offset) != []
    requires forall t :: from <= t < d ==> DueBlock(reqs, t, offset) == []
    ensures EarliestDue(reqs, offset, from, end) == Some(d)
  {
  }

  /**
   * The search, in terms of due instants alone: the block is empty exactly if nothing is due in the week,
   * and then the default is an hour and the initial gap; otherwise the deadline is the least due instant,
   * the block is what is due at it, and the gap is the least of the block's gaps and the initial bound.
   */
  lemma NextIsEarliest(c: Config, schedule: seq<Requirement>, internal: int, now: int)
    ensures var next, reqs := NextFrom(c, schedule, internal, now), Effective(c, schedule);
            && (next.block == [] <==>
                  forall t, r :: internal <= t < internal + WEEK && r in reqs ==> !Due(r, t, c.offset))
            && (next.block == [] ==> next.deadline == now + DEFAULT_WAIT && next.gap == INITIAL_GAP)
            && (next.block != [] ==>
                  && internal <= next.deadline < internal + WEEK
                  && (forall r :: r in next.block <==> r in reqs && Due(r, next.deadline, c.offset))
                  && (forall t, r :: internal <= t < next.deadline && r in reqs ==> !Due(r, t, c.offset))
                  && (forall r :: r in next.block ==> next.gap <= r.when.gap)
                  && (next.gap == INITIAL_GAP || exists r :: r in next.block && next.gap == r.when.gap))
  {
    var next, reqs := NextFrom(c, schedule, internal, now), Effective(c, schedule);
    forall t, r | r in reqs && DueBlock(reqs, t, c.offset) == [] ensures !Due(r, t, c.offset) {
      if Due(r, t, c.offset) {
        InBlock(reqs, r, t, c.offset);
      }
    }
    if next.block != [] {
      DueBlockFilters(reqs, [], next.deadline, c.offset);
      BlockHead(reqs, next.deadline, c.offset);
    }
  }

  /** A full local hour. */
  predicate OnTheHour(t: int, offset: int) {
    (t + offset) % 3600 == 0
  }

  lemma LegalIdOnTheHour(c: Config, t: int)
    ensures Due(ImplicitLegalId(c), t, c.offset) <==> OnTheHour(t, c.offset)
  {
    TopOfHour(t + c.offset);
    var tm := Fields(t, c.offset);
    assert Due(ImplicitLegalId(c), t, c.offset) <==> tm.sec == 0 && tm.min == 0;
  }

  lemma DueBlockOne(r: Requirement, t: int, offset: int)
    ensures DueBlock([r], t, offset) == if Due(r, t, offset) then [r] else []
  {
    FilterOne(r, q => Due(q, t, offset));
  }

  lemma LegalIdBlock(c: Config, t: int)
    ensures DueBlock([ImplicitLegalId(c)], t, c.offset) == if OnTheHour(t, c.offset) then [ImplicitLegalId(c)] else []
  {
    LegalIdOnTheHour(c, t);
    DueBlockOne(ImplicitLegalId(c), t, c.offset);
  }

  /** What is due at `t`: what the schedule says, after one legal ID if that is implicit and `t` a full hour. */
  lemma DueWithLegalId(c: Config, schedule: seq<Requirement>, t: int)
    ensures DueBlock(Effective(c, schedule), t, c.offset) ==
              (if c.implicitLegalId && OnTheHour(t, c.offset) then [ImplicitLegalId(c)] else [])
              + DueBlock(schedule, t, c.offset)
  {
    if c.implicitLegalId {
      DueBlockFilters([ImplicitLegalId(c)], schedule, t, c.offset);
      LegalIdBlock(c, t);
    } else {
      assert [] + DueBlock(schedule, t, c.offset) == DueBlock(schedule, t, c.offset);
    }
  }

  /**
   * The search in terms of the stored schedule and the flag for the implicit legal ID, in seconds. Whatever
   * the flag, anything in the schedule that is due in the next seven days bounds the deadline; with the flag
   * so does every full hour. The block is what the schedule has due at the deadline, in its order, after
   * exactly one legal ID if and only if that is implicit and the deadline a full hour.
   */
  lemma NextFromSchedule(c: Config, schedule: seq<Requirement>, internal: int, now: int)
    ensures var next := NextFrom(c, schedule, internal, now);
            var legalId := Requirement(TimeSpec([0], [0], [], [], [], [], c.legalIdGap), LegalId, true, -1, "");
            && (forall r, t :: r in schedule && internal <= t < internal + 604800 && Due(r, t, c.offset) ==>
                  next.block != [] && next.deadline <= t)
            && (forall t :: c.implicitLegalId && internal <= t < internal + 604800 && OnTheHour(t, c.offset) ==>
                  next.block != [] && next.deadline <= t)
            && (next.block != [] ==>
                  && internal <= next.deadline < internal + 604800
                  && next.block == (if c.implicitLegalId && OnTheHour(next.deadline, c.offset) then [legalId] else [])
                                   + DueBlock(schedule, next.deadline, c.offset))
            && (next.block == [] ==> next.deadline == now + 3600)
            && next.gap <= 630720000 && (forall r :: r in next.block ==> next.gap <= r.when.gap)
            && (next.gap == 630720000 || exists r :: r in next.block && next.gap == r.when.gap)
  {
    var next := NextFrom(c, schedule, internal, now);
    NextIsEarliest(c, schedule, internal, now);
    DueWithLegalId(c, schedule, next.deadline);
    forall t | c.implicitLegalId && internal <= t < internal + 604800 && OnTheHour(t, c.offset)
      ensures next.block != [] && next.deadline <= t
    {
      LegalIdOnTheHour(c, t);
      assert ImplicitLegalId(c) in Effective(c, schedule);
    }
  }

  /**
   * Moving the internal time forward past nothing that is due leaves the pending instant alone, and
   * moving it past the pending instant moves the search past it too.
   */
  lemma PendingAfter(c: Config, schedule: seq<Requirement>, i: int, j: int)
    requires i <= j && Pending(c, schedule, i).Some?
    ensures var d := Pending(c, schedule, i).value;
            if j <= d then Pending(c, schedule, j) == Some(d)
            else Pending(c, schedule, j).Some? ==> Pending(c, schedule, j).value > d
  {
  }

  /** The pending instant never moves backward while the internal time does not. */
  lemma PendingMonotone(c: Config, schedule: seq<Requirement>, i: int, j: int)
    requires i <= j && Pending(c, schedule, i).Some? && Pending(c, schedule, j).Some?
    ensures Pending(c, schedule, i).value <= Pending(c, schedule, j).value
  {
  }

  /** With a satisfiable weekly requirement in force the search never falls back to its default. */
  lemma PendingExists(c: Config, schedule: seq<Requirement>, r: Requirement, internal: int)
    requires r in Effective(c, schedule)
    requires Weekly(r.when) && Satisfiable(r.when)
    ensures Pending(c, schedule, internal).Some?
  {
    HorizonSuffices(r, c.offset, internal);
    var t :| internal <= t < internal + WEEK && Due(r, t, c.offset);
    InBlock(Effective(c, schedule), r, t, c.offset);
  }

  /** When every requirement is weekly, the search falls back to its default exactly if none can ever be due. */
  lemma PendingIffSatisfiable(c: Config, schedule: seq<Requirement>, internal: int)
    requires forall r :: r in Effective(c, schedule) ==> Weekly(r.when)
    ensures Pending(c, schedule, internal).Some? <==> exists r :: r in Effective(c, schedule) && Satisfiable(r.when)
  {
    var reqs := Effective(c, schedule);
    if Pending(c, schedule, internal).Some? {
      var d := Pending(c, schedule, internal).value;
      var r := DueBlock(reqs, d, c.offset)[0];
      BlockHead(reqs, d, c.offset);
      if !Satisfiable(r.when) {
        NeverDue(r, c.offset, d);
      }
    } else if exists r :: r in reqs && Satisfiable(r.when) {
      var r :| r in reqs && Satisfiable(r.when);
      PendingExists(c, schedule, r, internal);
    }
  }

  /** The implicit legal ID puts the deadline less than an hour after the internal time. */
  lemma LegalIdHourly(c: Config, schedule: seq<Requirement>, internal: int, now: int)
    requires c.implicitLegalId
    ensures var next := NextFrom(c, schedule, internal, now);
            next.block != [] && internal <= next.deadline < internal + 3600
  {
    var r := ImplicitLegalId(c);
    var t := internal + (-internal - c.offset) % 3600;
    assert (t + c.offset) % 3600 == 0;
    assert (t + c.offset) % 60 == 0 && (t + c.offset) / 60 % 60 == 0 by {
      TopOfHour(t + c.offset);
    }
    assert Due(r, t, c.offset);
    InBlock(Effective(c, schedule), r, t, c.offset);
  }

  lemma TopOfHour(u: int)
    ensures u % 3600 == 0 <==> u % 60 == 0 && u / 60 % 60 == 0
  {
  }

  /**
   * When a block is left behind: after running the block due at `d`, the search is past `d` exactly if
   * the callbacks of a wall-clock block ended in a later second, or a fixed advance crosses `d`.
   */
  lemma LeavesBlockBehind(c: Config, schedule: seq<Requirement>, internal: int, finished: int)
    requires Pending(c, schedule, internal).Some?
    requires finished >= Pending(c, schedule, internal).value
    ensures var d := Pending(c, schedule, internal).value;
            var block := DueBlock(Effective(c, schedule), d, c.offset);
            var a := Fold(Advances(block));
            Pending(c, schedule, AfterBlock(internal, block, finished)) != Some(d)
            <==> if a < 0 then finished > d else internal + a > d
  {
  }

  /**
   * Exactly when a block advances by at least a second, as every block is meant to. With `n` and `p` the last
   * negative and the last positive advance, it does unless a zero undoes the negative ones, or the clock is
   * asked for and has not moved past the internal time.
   */
  lemma StrictProgress(internal: int, block: seq<Requirement>, finished: int)
    ensures var s := Advances(block);
            var n, p := LastNegative(s), LastPositive(s);
            AfterBlock(internal, block, finished) > internal
            <==> n < 0 || n < p || (!ZeroAfterNegative(s, p + 1) && finished > internal)
  {
    var s := Advances(block);
    FoldClosedForm(s);
    PositiveIff(s, LastNegative(s), LastPositive(s));
  }

  /** Exactly when the whole documented rule for the advance of a block is kept. */
  lemma AdvancesAsDocumentedIff(internal: int, block: seq<Requirement>, finished: int)
    ensures var s, elapsed := Advances(block), finished - internal;
            var n, p := LastNegative(s), LastPositive(s);
            AfterBlock(internal, block, finished) == internal + DocumentedAdvance(s, elapsed)
            <==> n < 0
                 || LargestIsLate(s, Max(1, elapsed))
                 || (p < n && !ZeroAfterNegative(s, p + 1)
                     && elapsed >= 1 && forall k :: 0 <= k < |block| ==> block[k].advance <= elapsed)
  {
    DocumentedRuleIff(Advances(block), finished - internal);
  }

  // ---- The engine ----------------------------------------------------------------------------

  method Contains(list: seq<int>, v: int) returns (met: bool)
    ensures met <==> v in list
  {
    met := false;
    for k := 0 to |list|
      invariant !met && v !in list[..k]
    {
      if list[k] == v {
        met := true;
        break;
      }
    }
  }

  class Engine {
    const config: Config
    var schedule: seq<Requirement>
    var internalTime: int

    constructor (config: Config, schedule: seq<Requirement>, now: int)
      ensures this.config == config && this.schedule == schedule && internalTime == now
    {
      this.config := config;
      this.schedule := schedule;
      this.internalTime := now;
    }

    method EffectiveSchedule() returns (reqs: seq<Requirement>)
      ensures reqs == Effective(config, schedule)
    {
      if config.implicitLegalId {
        reqs := [ImplicitLegalId(config)];
        reqs := reqs + schedule;
      } else {
        reqs := schedule;
      }
    }

    method IsDue(item: Requirement, candidate: int) returns (due: bool)
      ensures due <==> Due(item, candidate, config.offset)
    {
      var tm := Fields(candidate, config.offset);
      var w := item.when;
      if w.onlyAt != [] {
        due := Contains(w.onlyAt, candidate);
        return;
      }
      if w.dom != [] {
        var met := Contains(w.dom, tm.mday);
        if !met { return false; }
      }
      if w.dow != [] {
        var met := Contains(w.dow, tm.wday);
        if !met { return false; }
      }
      if w.hours != [] {
        var met := Contains(w.hours, tm.hour);
        if !met { return false; }
      }
      if w.minutes != [] {
        var met := Contains(w.minutes, tm.min);
        if !met { return false; }
      }
      if w.seconds != [] {
        var met := Contains(w.seconds, tm.sec);
        if !met { return false; }
      }
      return true;
    }

    /** Collect what is due in the second `target`, with the deadline and gap that follow from it. */
    method ScanSecond(reqs: seq<Requirement>, target: int, start: Next) returns (next: Next)
      requires start.block == [] && start.gap == INITIAL_GAP
      ensures next.block == DueBlock(reqs, target, config.offset) && next.gap == MinGap(next.block)
      ensures next.deadline == if next.block == [] then start.deadline else target
    {
      var block, deadline, gap := [], start.deadline, INITIAL_GAP;
      for k := 0 to |reqs|
        invariant block == DueBlock(reqs[..k], target, config.offset)
        invariant gap == MinGap(block)
        invariant deadline == if block == [] then start.deadline else target
      {
        FilterSnoc(reqs, k, r => Due(r, target, config.offset));
        var due := IsDue(reqs[k], target);
        if due {
          deadline := target;
          assert (block + [reqs[k]])[..|block|] == block;
          gap := if reqs[k].when.gap < gap then reqs[k].when.gap else gap;
          block := block + [reqs[k]];
        }
      }
      assert reqs[..|reqs|] == reqs;
      next := Next(block, deadline, gap);
    }

    /**
     * Scan second by second for the earliest block. A `started` schedule that already holds something
     * stops the scan at once and comes back with the default deadline and gap.
     */
    method FillNext(started: seq<Requirement>, now: int) returns (next: Next)
      ensures started == [] ==> next == NextFrom(config, schedule, internalTime, now)
      ensures started != [] ==> next == Next(started, now + DEFAULT_WAIT, INITIAL_GAP)
    {
      next := Next(started, now + DEFAULT_WAIT, INITIAL_GAP);
      var reqs := EffectiveSchedule();
      var target := internalTime;
      while target < internalTime + WEEK && next.block == []
        invariant internalTime <= target <= internalTime + WEEK
        invariant started != [] ==> next == Next(started, now + DEFAULT_WAIT, INITIAL_GAP)
        invariant started == [] && next.block == [] ==>
            && next == Next([], now + DEFAULT_WAIT, INITIAL_GAP)
            && forall t :: internalTime <= t < target ==> DueBlock(reqs, t, config.offset) == []
        invariant started == [] && next.block != [] ==>
            && internalTime <= next.deadline < target
            && next.block == DueBlock(reqs, next.deadline, config.offset) && next.gap == MinGap(next.block)
            && forall t :: internalTime <= t < next.deadline ==> DueBlock(reqs, t, config.offset) == []
        decreases internalTime + WEEK - target
      {
        next := ScanSecond(reqs, target, next);
        target := target + 1;
      }
      if started == [] && next.block != [] {
        EarliestDueIs(reqs, config.offset, internalTime, internalTime + WEEK, next.deadline);
      }
    }

    /** Run the callbacks of a block in order and move the internal time; they are over at `finished`. */
    method RunBlock(deadline: int, block: seq<Requirement>, finished: int) returns (calls: seq<Call>)
      modifies `internalTime
      ensures |calls| == |block| && forall k :: 0 <= k < |block| ==> calls[k] == Call(deadline, block[k])
      ensures internalTime == AfterBlock(old(internalTime), block, finished)
    {
      var advance := 1;
      ghost var all := Advances(block);
      calls := [];
      for k := 0 to |block|
        invariant |calls| == k && forall i :: 0 <= i < k ==> calls[i] == Call(deadline, block[i])
        invariant advance == Fold(all[..k])
      {
        assert all[..k + 1][..k] == all[..k];
        if block[k].advance < 0 && advance > 0 {
          advance := -1;
        } else {
          advance := Max(advance, block[k].advance);
        }
        calls := calls + [Call(deadline, block[k])];
      }
      assert all[..|all|] == all;
      if advance < 0 {
        internalTime := finished;
      } else {
        internalTime := internalTime + advance;
      }
    }

    method SetTime(now: int)
      modifies `internalTime
      ensures internalTime == now
    {
      internalTime := now;
    }

    /** Run everything marked for start-up; `finished` is the clock when its callbacks are over. */
    method HandleReboot(finished: int) returns (calls: seq<Call>)
      modifies `internalTime
      ensures internalTime == AfterReboot(config, schedule, old(internalTime), finished)
      ensures calls == RebootCalls(Effective(config, schedule))
      ensures var reqs, p := Effective(config, schedule), MarkedPositions(Effective(config, schedule));
              |calls| == |p| && forall k :: 0 <= k < |p| ==> calls[k] == Call(0, reqs[p[k]].(advance := -1))
    {
      var reqs := EffectiveSchedule();
      var block := [];
      for k := 0 to |reqs|
        invariant block == RebootBlock(reqs[..k])
      {
        assert reqs[..k + 1][..k] == reqs[..k];
        if reqs[k].reboot {
          block := block + [reqs[k].(advance := -1)];
        }
      }
      assert reqs[..|reqs|] == reqs;
      RebootBlockIs(reqs);
      RebootCallsAre(reqs);
      calls := RunBlock(0, block, finished);
      if block != [] {
        AllNegative(Advances(block));
      }
    }
  }

  /** The requirements marked for start-up, each asking for the wall-clock time. */
  function RebootBlock(reqs: seq<Requirement>): seq<Requirement> {
    if reqs == [] then []
    else
      var n := |reqs| - 1;
      RebootBlock(reqs[..n]) + if reqs[n].reboot then [reqs[n].(advance := -1)] else []
  }

  function RebootCalls(reqs: seq<Requirement>): seq<Call> {
    var block := RebootBlock(reqs);
    seq(|block|, k requires 0 <= k < |block| => Call(0, block[k]))
  }

  /** Start-up sets the internal time to the clock, unless nothing is marked: then it still moves one second. */
  function AfterReboot(c: Config, schedule: seq<Requirement>, internal: int, finished: int): int {
    if exists r :: r in Effective(c, schedule) && r.reboot then finished else internal + 1
  }

  lemma {:induction false} RebootBlockIs(reqs: seq<Requirement>)
    ensures RebootBlock(reqs) != [] <==> exists r :: r in reqs && r.reboot
    ensures forall r :: r in RebootBlock(reqs) ==> r.advance == -1
  {
    if reqs != [] {
      RebootBlockIs(reqs[..|reqs| - 1]);
      assert reqs == reqs[..|reqs| - 1] + [reqs[|reqs| - 1]];
    }
  }

  /** Where the requirements marked for start-up stand: every such place once, in order. */
  function MarkedPositions(reqs: seq<Requirement>): (p: seq<nat>)
    ensures forall j, k :: 0 <= j < k < |p| ==> p[j] < p[k]
    ensures forall k :: 0 <= k < |p| ==> p[k] < |reqs| && reqs[p[k]].reboot
    ensures forall i :: 0 <= i < |reqs| && reqs[i].reboot ==> i in p
  {
    if reqs == [] then []
    else
      var n := |reqs| - 1;
      MarkedPositions(reqs[..n]) + if reqs[n].reboot then [n] else []
  }

  /** Start-up calls back for the marked requirements one by one, in schedule order, with deadline 0 and advance -1. */
  lemma {:induction false} RebootCallsAre(reqs: seq<Requirement>)
    ensures var calls, p := RebootCalls(reqs), MarkedPositions(reqs);
            |calls| == |p| && forall k :: 0 <= k < |p| ==> calls[k] == Call(0, reqs[p[k]].(advance := -1))
  {
    if reqs != [] {
      var n := |reqs| - 1;
      RebootCallsAre(reqs[..n]);
      var calls, p := RebootCalls(reqs[..n]), MarkedPositions(reqs[..n]);
      assert forall k :: 0 <= k < |p| ==> RebootBlock(reqs[..n])[k] == calls[k].requirement;
    }
  }

  lemma {:induction false} RebootBlockConcat(a: seq<Requirement>, b: seq<Requirement>)
    ensures RebootBlock(a + b) == RebootBlock(a) + RebootBlock(b)
  {
    if b == [] {
      assert a + b == a;
    } else {
      var n := |b| - 1;
      RebootBlockConcat(a, b[..n]);
      assert (a + b)[..|a| + n] == a + b[..n];
    }
  }

  lemma RebootCallsConcat(a: seq<Requirement>, b: seq<Requirement>)
    ensures RebootCalls(a + b) == RebootCalls(a) + RebootCalls(b)
  {
    RebootBlockConcat(a, b);
  }

  lemma RebootCallsMembers(reqs: seq<Requirement>, v: Call)
    ensures v in RebootCalls(reqs) <==> exists r :: r in reqs && r.reboot && v == Call(0, r.(advance := -1))
  {
    var calls, p := RebootCalls(reqs), MarkedPositions(reqs);
    RebootCallsAre(reqs);
    if r :| r in reqs && r.reboot && v == Call(0, r.(advance := -1)) {
      var i :| 0 <= i < |reqs| && reqs[i] == r;
      var k :| 0 <= k < |p| && p[k] == i;
      assert calls[k] == v;
    }
  }

  lemma LegalIdCall(c: Config)
    ensures RebootCalls([ImplicitLegalId(c)]) == [Call(0, ImplicitLegalId(c))]
  {
    assert [ImplicitLegalId(c)][..0] == [];
    assert RebootBlock([ImplicitLegalId(c)]) == [ImplicitLegalId(c)];
  }

  /**
   * Start-up in terms of the stored schedule: the calls distribute over concatenation; they are for exactly
   * the marked requirements, with advance -1; and the implicit legal ID, which is marked, comes first.
   */
  lemma RebootCallsFilter(c: Config, a: seq<Requirement>, b: seq<Requirement>)
    ensures RebootCalls(a + b) == RebootCalls(a) + RebootCalls(b)
    ensures forall v :: v in RebootCalls(a) <==> exists r :: r in a && r.reboot && v == Call(0, r.(advance := -1))
    ensures RebootCalls(Effective(c, a)) ==
              (if c.implicitLegalId
               then [Call(0, Requirement(TimeSpec([0], [0], [], [], [], [], c.legalIdGap), LegalId, true, -1, ""))]
               else [])
              + RebootCalls(a)
  {
    RebootCallsConcat(a, b);
    forall v ensures v in RebootCalls(a) <==> exists r :: r in a && r.reboot && v == Call(0, r.(advance := -1)) {
      RebootCallsMembers(a, v);
    }
    if c.implicitLegalId {
      RebootCallsConcat([ImplicitLegalId(c)], a);
      LegalIdCall(c);
    }
  }
}
