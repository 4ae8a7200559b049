// What has been played from a list and what is left of it add up to what was loaded, over any run.

module Consumption {
  import opened Options
  import opened Schema
  import opened Playlist
  import opened AutomationState
  import opened Runs
  import opened Passing

  /** How often an id is still to come. */
  function Times(ids: seq<int>, id: int): nat {
    multiset(Live(ids))[id]
  }

  /** A live id that is heard as `id`. */
  predicate HeardAs(x: int, id: int) {
    x != 0 && ColumnInt(x) == id
  }

  /** How many plays of `id` a list still holds. */
  function Copies(ids: seq<int>, id: int): nat {
    if ids == [] then 0
    else
      var n := |ids| - 1;
      Copies(ids[..n], id) + if HeardAs(ids[n], id) then 1 else 0
  }

  lemma {:induction false} CopiesAfterBury(ids: seq<int>, k: nat, id: int)
    requires k < |ids|
    ensures Copies(ids, id) == Copies(ids[k := 0], id) + if HeardAs(ids[k], id) then 1 else 0
    decreases |ids|
  {
    var n := |ids| - 1;
    if k < n {
      CopiesAfterBury(ids[..n], k, id);
      assert ids[k := 0][..n] == ids[..n][k := 0];
    } else {
      assert ids[k := 0][..n] == ids[..n];
    }
  }

  function Count(heard: Option<ItemData>): nat {
    if heard.Some? then 1 else 0
  }

  function CountOf(heard: Option<ItemData>, id: int): nat {
    if heard.Some? && heard.value.id == id then 1 else 0
  }

  /** From `before` to `after` exactly what was heard is gone, and nothing has come back. */
  predicate TakesOff(before: seq<int>, after: seq<int>, heard: Option<ItemData>, id: int) {
    && Times(after, id) <= Times(before, id)
    && |Live(after)| + Count(heard) == |Live(before)|
    && Copies(after, id) + CountOf(heard, id) == Copies(before, id)
  }

  lemma PopTakesOff(ids: seq<int>, library: Library, seconds: int, id: int)
    ensures TakesOff(ids, PopFit(ids, library, seconds).ids, PopFit(ids, library, seconds).item, id)
  {
    PopConserves(ids, library, seconds);
    var k := FirstFit(ids, library, seconds, 0);
    if k.Some? {
      CopiesAfterBury(ids, k.value, id);
    }
  }

  // ---- One step ------------------------------------------------------------------------------

  function MainHeard(v: Event): Option<ItemData> {
    if v.PlayedMain? then Some(v.item) else None
  }

  function BumperHeard(v: Event): Option<ItemData> {
    if v.PlayedBumper? then Some(v.item) else None
  }

  /** The mainshow a step loads: one that a block's callback asked for, or one that is drawn. */
  function MainLoaded(e: Env, v: Event): Option<seq<int>> {
    if v.RanBlock? then e.callbackMainshow else if v.DrewMainshow? then Some(e.drawnMainshow) else None
  }

  lemma OutcomeTakesOff(c: Settings, mainshow: seq<int>, bumpers: seq<int>, clock: int, deadline: int, last: int,
                        e: Env, after: State, v: Event, id: int)
    requires Outcome(c, mainshow, bumpers, clock, deadline, last, e, after, v) && !v.RanBlock?
    ensures v.DrewMainshow? ==> after.mainshow == e.drawnMainshow
    ensures !v.DrewMainshow? ==> TakesOff(mainshow, after.mainshow, MainHeard(v), id)
    ensures TakesOff(bumpers, after.bumpers, BumperHeard(v), id)
  {
    PopTakesOff(mainshow, e.library, last - (clock + e.dMain), id);
    PopTakesOff(bumpers, e.library, last - (clock + e.dMain + e.dCutoff + e.dBumper), id);
  }

  lemma BlockLoads(r: Run, k: nat)
    requires r.Valid() && k < |r.envs| && r.events[k].RanBlock?
    ensures r.states[k + 1].bumpers == r.envs[k].bumpersAfter
    ensures r.states[k + 1].mainshow ==
            if r.envs[k].callbackMainshow.Some? then r.envs[k].callbackMainshow.value else r.states[k].mainshow
  {
    assert r.StepAt(k);
    OverrideEffect(r.states[k], r.envs[k]);
    MainshowStepKeeps(r.c, AtTest(r.states[k], r.envs[k]), Search(r.c, r.states[k], r.envs[k]), r.envs[k]);
  }

  /** What step `k` does to the mainshow. */
  predicate MainUse(r: Run, k: nat, id: int)
    requires k < |r.envs| == |r.events| && |r.states| == |r.envs| + 1
  {
    match MainLoaded(r.envs[k], r.events[k])
    case Some(loaded) => r.states[k + 1].mainshow == loaded
    case None => TakesOff(r.states[k].mainshow, r.states[k + 1].mainshow, MainHeard(r.events[k]), id)
  }

  /** What step `k` does to the bumpers. */
  predicate BumperUse(r: Run, k: nat, id: int)
    requires k < |r.envs| == |r.events| && |r.states| == |r.envs| + 1
  {
    if r.events[k].RanBlock? then r.states[k + 1].bumpers == r.envs[k].bumpersAfter
    else TakesOff(BumpersAt(r.states[k], r.envs[k]), r.states[k + 1].bumpers, BumperHeard(r.events[k]), id)
  }

  lemma StepUses(r: Run, k: nat, id: int)
    requires r.Valid() && k < |r.envs|
    ensures MainUse(r, k, id) && BumperUse(r, k, id)
  {
    if r.events[k].RanBlock? {
      BlockLoads(r, k);
    } else {
      var clock, deadline, last := AnyPassAt(r, k);
      OutcomeTakesOff(r.c, r.states[k].mainshow, BumpersAt(r.states[k], r.envs[k]), clock, deadline, last,
                      r.envs[k], r.states[k + 1], r.events[k], id);
    }
  }

  // ---- Accounts ------------------------------------------------------------------------------

  /** A list that was loaded, how many tracks were heard from it since, and how many of them were `id`. */
  datatype Account = Account(loaded: seq<int>, plays: nat, copies: nat)

  function Credit(a: Account, heard: Option<ItemData>, id: int): Account {
    a.(plays := a.plays + Count(heard), copies := a.copies + CountOf(heard, id))
  }

  /** What a list and its account add up to. */
  predicate Balanced(ids: seq<int>, a: Account, id: int) {
    && Times(ids, id) <= Times(a.loaded, id)
    && |Live(ids)| + a.plays == |Live(a.loaded)|
    && Copies(ids, id) + a.copies == Copies(a.loaded, id)
  }

  lemma FreshBalance(ids: seq<int>, id: int)
    ensures Balanced(ids, Account(ids, 0, 0), id)
  {
  }

  lemma BalanceKept(before: seq<int>, after: seq<int>, a: Account, heard: Option<ItemData>, id: int)
    requires Balanced(before, a, id) && TakesOff(before, after, heard, id)
    ensures Balanced(after, Credit(a, heard, id), id)
  {
  }

  // ---- The mainshow --------------------------------------------------------------------------

  /** The mainshow last loaded between `i` and `k`, by a callback or a draw, and what was heard of it since. */
  function MainAccount(r: Run, i: nat, k: nat, id: int): Account
    requires i <= k <= |r.envs| == |r.events| && |r.states| == |r.envs| + 1
    decreases k - i
  {
    if i == k then Account(r.states[i].mainshow, 0, 0)
    else
      match MainLoaded(r.envs[k - 1], r.events[k - 1])
      case Some(loaded) => Account(loaded, 0, 0)
      case None => Credit(MainAccount(r, i, k - 1, id), MainHeard(r.events[k - 1]), id)
  }

  lemma {:induction false} MainBalance(r: Run, i: nat, k: nat, id: int)
    requires i <= k <= |r.envs| == |r.events| && |r.states| == |r.envs| + 1
    requires forall j :: i <= j < k ==> MainUse(r, j, id)
    ensures Balanced(r.states[k].mainshow, MainAccount(r, i, k, id), id)
    decreases k - i
  {
    if i < k {
      MainBalance(r, i, k - 1, id);
      assert MainUse(r, k - 1, id);
      if MainLoaded(r.envs[k - 1], r.events[k - 1]).None? {
        BalanceKept(r.states[k - 1].mainshow, r.states[k].mainshow, MainAccount(r, i, k - 1, id),
                    MainHeard(r.events[k - 1]), id);
      }
    }
  }

  /**
   * Nothing is played twice, over any run: across blocks, redraws and a human in control, every mainshow is
   * used up one live id per track. What was heard since it was loaded and what is left add up to it, in all
   * and for every single id.
   */
  lemma MainshowIsUsedUp(r: Run, i: nat, k: nat, id: int)
    requires r.Valid() && i <= k <= |r.envs|
    ensures var ids, a := r.states[k].mainshow, MainAccount(r, i, k, id);
            && Times(ids, id) <= Times(a.loaded, id)
            && |Live(ids)| + a.plays == |Live(a.loaded)|
            && Copies(ids, id) + a.copies == Copies(a.loaded, id)
  {
    forall j | i <= j < k ensures MainUse(r, j, id) {
      StepUses(r, j, id);
    }
    MainBalance(r, i, k, id);
  }

  /** How many of the steps from `i` to `k` played from the mainshow. */
  function MainPlays(r: Run, i: nat, k: nat): nat
    requires i <= k <= |r.envs| == |r.events|
    decreases k - i
  {
    if i == k then 0 else MainPlays(r, i, k - 1) + Count(MainHeard(r.events[k - 1]))
  }

  lemma {:induction false} NothingLoaded(r: Run, i: nat, k: nat, id: int)
    requires i <= k <= |r.envs| == |r.events| && |r.states| == |r.envs| + 1
    requires forall j :: i <= j < k ==> MainLoaded(r.envs[j], r.events[j]).None?
    ensures var a := MainAccount(r, i, k, id);
            a.loaded == r.states[i].mainshow && a.plays == MainPlays(r, i, k)
    decreases k - i
  {
    if i < k {
      NothingLoaded(r, i, k - 1, id);
    }
  }

  /** While no mainshow is loaded, it loses exactly one live id per track played from it, and gains none. */
  lemma MainshowShrinks(r: Run, i: nat, k: nat, id: int)
    requires r.Valid() && i <= k <= |r.envs|
    requires forall j :: i <= j < k ==> MainLoaded(r.envs[j], r.events[j]).None?
    ensures Times(r.states[k].mainshow, id) <= Times(r.states[i].mainshow, id)
    ensures |Live(r.states[k].mainshow)| + MainPlays(r, i, k) == |Live(r.states[i].mainshow)|
  {
    MainshowIsUsedUp(r, i, k, id);
    NothingLoaded(r, i, k, id);
  }

  // ---- The bumpers ---------------------------------------------------------------------------

  /** What a step that runs no block draws its bumpers from, with their account. */
  function Refilled(s: State, e: Env, a: Account): Account {
    if Live(s.bumpers) == [] then Account(e.bumpersBefore, 0, 0) else a
  }

  lemma RefilledBalance(s: State, e: Env, a: Account, id: int)
    requires Balanced(s.bumpers, a, id)
    ensures Balanced(BumpersAt(s, e), Refilled(s, e, a), id)
  {
    FreshBalance(e.bumpersBefore, id);
  }

  /** The bumpers last loaded between `i` and `k`, after a block or because none was left, and what was heard since. */
  function BumperAccount(r: Run, i: nat, k: nat, id: int): Account
    requires i <= k <= |r.envs| == |r.events| && |r.states| == |r.envs| + 1
    decreases k - i
  {
    if i == k then Account(r.states[i].bumpers, 0, 0)
    else
      var s, e, v := r.states[k - 1], r.envs[k - 1], r.events[k - 1];
      if v.RanBlock? then Account(e.bumpersAfter, 0, 0)
      else Credit(Refilled(s, e, BumperAccount(r, i, k - 1, id)), BumperHeard(v), id)
  }

  lemma {:induction false} BumperBalance(r: Run, i: nat, k: nat, id: int)
    requires i <= k <= |r.envs| == |r.events| && |r.states| == |r.envs| + 1
    requires forall j :: i <= j < k ==> BumperUse(r, j, id)
    ensures Balanced(r.states[k].bumpers, BumperAccount(r, i, k, id), id)
    decreases k - i
  {
    if i < k {
      BumperBalance(r, i, k - 1, id);
      assert BumperUse(r, k - 1, id);
      if !r.events[k - 1].RanBlock? {
        var s, e := r.states[k - 1], r.envs[k - 1];
        var a := BumperAccount(r, i, k - 1, id);
        RefilledBalance(s, e, a, id);
        BalanceKept(BumpersAt(s, e), r.states[k].bumpers, Refilled(s, e, a), BumperHeard(r.events[k - 1]), id);
      }
    }
  }

  /** The bumpers are used up in the same way, from every time they are loaded. */
  lemma BumpersAreUsedUp(r: Run, i: nat, k: nat, id: int)
    requires r.Valid() && i <= k <= |r.envs|
    ensures var ids, a := r.states[k].bumpers, BumperAccount(r, i, k, id);
            && Times(ids, id) <= Times(a.loaded, id)
            && |Live(ids)| + a.plays == |Live(a.loaded)|
            && Copies(ids, id) + a.copies == Copies(a.loaded, id)
  {
    forall j | i <= j < k ensures BumperUse(r, j, id) {
      StepUses(r, j, id);
    }
    BumperBalance(r, i, k, id);
  }
}
