// Playlists that are consumed in place: a popped id is overwritten with the tombstone 0.

module Playlist {
  import opened Options
  import opened Schema
  import opened Sequences

  /** What a playable item knows about itself; `filename` is absent only before the first row is read. */
  datatype ItemData = ItemData(id: int, filename: Option<string>, duration: int, description: string, playcount: int)

  const CLEARED := ItemData(0, None, 0, "", 0)

  function RowData(id: int, row: ItemRow): ItemData {
    ItemData(ColumnInt(id), Some(ColumnText(row.filename)), ColumnIntOrZero(row.duration),
             ColumnText(row.description), ColumnIntOrZero(row.playcount))
  }

  /** A lookup by id that finds no row leaves the previous row's data behind. */
  function Fetched(library: Library, id: int, before: ItemData): ItemData {
    if id in library then RowData(id, library[id]) else before
  }

  predicate Accepted(data: ItemData, seconds: int) {
    data.id != 0 && data.duration <= seconds
  }

  // ---- First fit -----------------------------------------------------------------------------

  /** A live id whose row exists and whose duration is within the limit. */
  predicate Fits(library: Library, id: int, seconds: int) {
    id != 0 && id in library && Accepted(RowData(id, library[id]), seconds)
  }

  function Duration(library: Library, id: int): int
    requires id in library
  {
    ColumnIntOrZero(library[id].duration)
  }

  /** The first position at or after `from` whose id fits. */
  function FirstFit(ids: seq<int>, library: Library, seconds: int, from: nat): (r: Option<nat>)
    requires from <= |ids|
    ensures r.Some? ==> from <= r.value < |ids| && Fits(library, ids[r.value], seconds)
    ensures r.Some? ==> (forall k :: from <= k < r.value ==> !Fits(library, ids[k], seconds))
    ensures r.None? ==> (forall k :: from <= k < |ids| ==> !Fits(library, ids[k], seconds))
    decreases |ids| - from
  {
    if from == |ids| then None
    else if Fits(library, ids[from], seconds) then Some(from)
    else FirstFit(ids, library, seconds, from + 1)
  }

  datatype Pop = Pop(ids: seq<int>, item: Option<ItemData>)

  /** Popping the first fit: the item found, and the list with that one position buried. */
  function PopFit(ids: seq<int>, library: Library, seconds: int): Pop {
    match FirstFit(ids, library, seconds, 0)
    case None => Pop(ids, None)
    case Some(k) => Pop(ids[k := 0], Some(RowData(ids[k], library[ids[k]])))
  }

  /** The id has a row, reads as nonzero, and is no longer than the limit. */
  predicate CanTake(id: int, library: Library, seconds: int) {
    && id != 0 && id in library && ColumnInt(id) != 0
    && (if library[id].duration.Some? then ColumnInt(library[id].duration.value) else 0) <= seconds
  }

  /** What a pop does: the first id that can be taken is buried and its row is read. */
  lemma PopTakesFirst(ids: seq<int>, library: Library, seconds: int)
    ensures var p := PopFit(ids, library, seconds);
            && ((forall j :: 0 <= j < |ids| ==> !CanTake(ids[j], library, seconds)) ==> p == Pop(ids, None))
            && forall k :: 0 <= k < |ids| && CanTake(ids[k], library, seconds) ==>
                 (forall j :: 0 <= j < k ==> !CanTake(ids[j], library, seconds)) ==>
                 p == Pop(ids[k := 0], Some(RowData(ids[k], library[ids[k]])))
  {
  }

  // ---- What pops depend on -------------------------------------------------------------------

  /** The same ids have rows, and their durations read the same; names and play counts may differ. */
  predicate SameTracks(a: Library, b: Library) {
    a.Keys == b.Keys && forall id :: id in a && id in b ==> Duration(a, id) == Duration(b, id)
  }

  lemma {:induction false} SameFirstFit(ids: seq<int>, a: Library, b: Library, seconds: int, from: nat)
    requires SameTracks(a, b) && from <= |ids|
    ensures FirstFit(ids, a, seconds, from) == FirstFit(ids, b, seconds, from)
    decreases |ids| - from
  {
    if from < |ids| {
      SameFirstFit(ids, a, b, seconds, from + 1);
      assert Fits(a, ids[from], seconds) <==> Fits(b, ids[from], seconds);
    }
  }

  /** What a pop takes, and how long it is, depends on the ids and durations alone. */
  lemma SamePop(ids: seq<int>, a: Library, b: Library, seconds: int)
    requires SameTracks(a, b)
    ensures var p, q := PopFit(ids, a, seconds), PopFit(ids, b, seconds);
            && p.ids == q.ids && (p.item.Some? <==> q.item.Some?)
            && (p.item.Some? ==> p.item.value.duration == q.item.value.duration)
  {
    SameFirstFit(ids, a, b, seconds, 0);
  }

  // ---- The scan as written, with its leftover data -------------------------------------------

  datatype Scan = Scan(at: Option<nat>, data: ItemData)

  function ScanFrom(ids: seq<int>, library: Library, seconds: int, data: ItemData, from: nat): (s: Scan)
    requires from <= |ids|
    ensures s.at.Some? ==> from <= s.at.value < |ids| && ids[s.at.value] != 0 && Accepted(s.data, seconds)
    ensures s.at.None? ==> s.data == CLEARED
    decreases |ids| - from
  {
    if from == |ids| then Scan(None, CLEARED)
    else if ids[from] == 0 then ScanFrom(ids, library, seconds, data, from + 1)
    else
      var d := Fetched(library, ids[from], data);
      if Accepted(d, seconds) then Scan(Some(from), d)
      else ScanFrom(ids, library, seconds, d, from + 1)
  }

  function FirstLive(ids: seq<int>, from: nat): (r: Option<nat>)
    requires from <= |ids|
    ensures r.Some? ==> from <= r.value < |ids| && ids[r.value] != 0
    ensures r.Some? ==> (forall k :: from <= k < r.value ==> ids[k] == 0)
    ensures r.None? ==> (forall k :: from <= k < |ids| ==> ids[k] == 0)
    decreases |ids| - from
  {
    if from == |ids| then None else if ids[from] != 0 then Some(from) else FirstLive(ids, from + 1)
  }

  /** Data that is not itself acceptable never makes the scan stop at a missing row. */
  lemma {:induction false} CleanScan(ids: seq<int>, library: Library, seconds: int, data: ItemData, from: nat)
    requires from <= |ids| && !Accepted(data, seconds)
    ensures var s, k := ScanFrom(ids, library, seconds, data, from), FirstFit(ids, library, seconds, from);
            s.at == k && (k.Some? ==> s.data == RowData(ids[k.value], library[ids[k.value]]))
    decreases |ids| - from
  {
    if from < |ids| {
      CleanScan(ids, library, seconds, data, from + 1);
      if ids[from] != 0 {
        var d := Fetched(library, ids[from], data);
        if !Accepted(d, seconds) {
          CleanScan(ids, library, seconds, d, from + 1);
        }
      }
    }
  }

  /**
   * Exactly when stale data is harmless: the scan picks the first fit unless the item it is given would
   * be accepted as it stands and the first live id has no row.
   */
  lemma {:induction false} ScanIsFirstFit(ids: seq<int>, library: Library, seconds: int, data: ItemData, from: nat)
    requires from <= |ids|
    ensures var live := FirstLive(ids, from);
            ScanFrom(ids, library, seconds, data, from).at == FirstFit(ids, library, seconds, from)
            <==> !(Accepted(data, seconds) && live.Some? && ids[live.value] !in library)
    decreases |ids| - from
  {
    if !Accepted(data, seconds) {
      CleanScan(ids, library, seconds, data, from);
    } else if from < |ids| {
      if ids[from] == 0 {
        ScanIsFirstFit(ids, library, seconds, data, from + 1);
      } else {
        var d := Fetched(library, ids[from], data);
        if !Accepted(d, seconds) {
          CleanScan(ids, library, seconds, d, from + 1);
        }
      }
    }
  }

  // ---- Live ids ------------------------------------------------------------------------------

  function Live(ids: seq<int>): seq<int> {
    Filter(ids, id => id != 0)
  }

  lemma LiveConcat(a: seq<int>, b: seq<int>)
    ensures Live(a + b) == Live(a) + Live(b)
  {
    FilterConcat(a, b, id => id != 0);
  }

  /** Burying a live position takes exactly that id out of the live ones and keeps the rest in order. */
  lemma LiveAfterBury(ids: seq<int>, k: nat)
    requires k < |ids| && ids[k] != 0
    ensures Live(ids) == Live(ids[..k]) + [ids[k]] + Live(ids[k + 1..])
    ensures Live(ids[k := 0]) == Live(ids[..k]) + Live(ids[k + 1..])
  {
    var a, b := ids[..k], ids[k + 1..];
    assert ids == a + ([ids[k]] + b) && ids[k := 0] == a + ([0] + b);
    assert [ids[k]][..0] == [] && [0][..0] == [];
    LiveConcat(a, [ids[k]] + b);
    LiveConcat(a, [0] + b);
    LiveConcat([ids[k]], b);
    LiveConcat([0], b);
  }

  lemma {:induction false} NoLive(ids: seq<int>)
    ensures Live(ids) == [] <==> forall k :: 0 <= k < |ids| ==> ids[k] == 0
  {
    FilterMembers(ids, id => id != 0);
    assert Live(ids) != [] ==> Live(ids)[0] in Live(ids);
    assert forall k :: 0 <= k < |ids| && ids[k] != 0 ==> ids[k] in Live(ids);
  }

  /** A pop loses nothing but the popped id, and the count of live ids drops by one exactly when it succeeds. */
  lemma PopConserves(ids: seq<int>, library: Library, seconds: int)
    ensures var p, k := PopFit(ids, library, seconds), FirstFit(ids, library, seconds, 0);
            && (p.item.Some? <==> exists i :: 0 <= i < |ids| && Fits(library, ids[i], seconds))
            && multiset(Live(ids)) == multiset(Live(p.ids)) + (if k.Some? then multiset{ids[k.value]} else multiset{})
            && |Live(p.ids)| == |Live(ids)| - if p.item.Some? then 1 else 0
  {
    var k := FirstFit(ids, library, seconds, 0);
    if k.Some? {
      LiveAfterBury(ids, k.value);
    }
  }

  /** Popping the front: the first live id goes, whether or not its row exists. */
  function PopFrontIds(ids: seq<int>): seq<int> {
    var k := FirstLive(ids, 0);
    if k.Some? then ids[k.value := 0] else ids
  }

  function PopFrontData(ids: seq<int>, library: Library, before: ItemData): ItemData {
    var k := FirstLive(ids, 0);
    if k.Some? then Fetched(library, ids[k.value], before) else CLEARED
  }

  /** The live ids form a queue: popping the front removes the head. */
  lemma PopFrontTakesHead(ids: seq<int>)
    ensures FirstLive(ids, 0).None? <==> Live(ids) == []
    ensures Live(ids) != [] ==>
              ids[FirstLive(ids, 0).value] == Live(ids)[0] && Live(PopFrontIds(ids)) == Live(ids)[1..]
    ensures Live(ids) == [] ==> PopFrontIds(ids) == ids
  {
    NoLive(ids);
    var k := FirstLive(ids, 0);
    if k.Some? {
      LiveAfterBury(ids, k.value);
      NoLive(ids[..k.value]);
    }
  }

  // ---- Rescans -------------------------------------------------------------------------------

  predicate NonIncreasing(limits: seq<int>) {
    forall j, k :: 0 <= j < k < |limits| ==> limits[k] <= limits[j]
  }

  /** What successive pops with the given limits find, rescanning from the front each time. */
  function Rescan(ids: seq<int>, library: Library, limits: seq<int>): seq<int>
    decreases |limits|
  {
    if limits == [] then []
    else
      var k := FirstFit(ids, library, limits[0], 0);
      (if k.Some? then [ids[k.value]] else []) +
      Rescan(if k.Some? then ids[k.value := 0] else ids, library, limits[1..])
  }

  /** What one walk over the list finds, moving to the next limit at each id it takes. */
  function OnePass(ids: seq<int>, library: Library, limits: seq<int>): seq<int> {
    if ids == [] || limits == [] then []
    else if Fits(library, ids[0], limits[0]) then [ids[0]] + OnePass(ids[1..], library, limits[1..])
    else OnePass(ids[1..], library, limits)
  }

  /** Under shrinking limits each pop lands strictly after the one before it. */
  lemma PopsMoveRight(ids: seq<int>, library: Library, first: int, second: int)
    requires second <= first && FirstFit(ids, library, first, 0).Some?
    ensures var k := FirstFit(ids, library, first, 0).value;
            var l := FirstFit(ids[k := 0], library, second, 0);
            l.Some? ==> k < l.value
  {
  }

  /** Rescans that can find nothing before `p` agree with one walk from `p`. */
  lemma {:induction false} RescanFrom(ids: seq<int>, library: Library, limits: seq<int>, p: nat)
    requires p <= |ids| && NonIncreasing(limits)
    requires limits != [] ==> forall k :: 0 <= k < p ==> !Fits(library, ids[k], limits[0])
    ensures Rescan(ids, library, limits) == OnePass(ids[p..], library, limits)
    decreases |limits|, |ids| - p
  {
    if limits == [] {
    } else if p == |ids| {
      assert FirstFit(ids, library, limits[0], 0).None?;
      RescanFrom(ids, library, limits[1..], p);
    } else if Fits(library, ids[p], limits[0]) {
      assert FirstFit(ids, library, limits[0], 0) == Some(p);
      assert ids[p := 0][p + 1..] == ids[p..][1..];
      RescanFrom(ids[p := 0], library, limits[1..], p + 1);
    } else {
      assert ids[p..][1..] == ids[p + 1..];
      RescanFrom(ids, library, limits, p + 1);
    }
  }

  /** Any sequence of pops with non-increasing limits finds what a single left-to-right pass finds. */
  lemma RescanIsOnePass(ids: seq<int>, library: Library, limits: seq<int>)
    requires NonIncreasing(limits)
    ensures Rescan(ids, library, limits) == OnePass(ids, library, limits)
  {
    RescanFrom(ids, library, limits, 0);
    assert ids[0..] == ids;
  }

  // ---- The objects ---------------------------------------------------------------------------

  class PlayableItem {
    var data: ItemData

    constructor ()
      ensures data == CLEARED
    {
      data := CLEARED;
    }

    method Fetch(library: Library, id: int) returns (found: bool)
      modifies this
      ensures found <==> id in library
      ensures data == Fetched(library, id, old(data))
      ensures data == if id in library then RowData(id, library[id]) else old(data)
    {
      found := id in library;
      if found {
        data := RowData(id, library[id]);
      }
    }

    method Clear()
      modifies this
      ensures data == CLEARED
    {
      data := CLEARED;
    }
  }

  class Playlist {
    var ids: seq<int>

    constructor ()
      ensures ids == []
    {
      ids := [];
    }

    /** Replace the contents by the list a query returned; an empty list if it found no row. */
    method Load(loaded: seq<int>)
      modifies this
      ensures ids == loaded
    {
      ids := loaded;
    }

    method Size() returns (size: nat)
      ensures size == |Live(ids)|
    {
      size := 0;
      for k := 0 to |ids|
        invariant size == |Live(ids[..k])|
      {
        FilterSnoc(ids, k, id => id != 0);
        if ids[k] != 0 {
          size := size + 1;
        }
      }
      assert ids[..|ids|] == ids;
    }

    /** Find, fetch into `result` and bury the first id that is acceptable within `seconds`. */
    method PopWithTimelimit(library: Library, seconds: int, result: PlayableItem)
      modifies this, result
      ensures var s := ScanFrom(old(ids), library, seconds, old(result.data), 0);
              result.data == s.data && ids == if s.at.Some? then old(ids)[s.at.value := 0] else old(ids)
      ensures !Accepted(old(result.data), seconds) ==>
                var p := PopFit(old(ids), library, seconds);
                ids == p.ids && result.data == if p.item.Some? then p.item.value else CLEARED
    {
      if !Accepted(result.data, seconds) {
        CleanScan(ids, library, seconds, result.data, 0);
      }
      for k := 0 to |ids|
        invariant ids == old(ids)
        invariant ScanFrom(ids, library, seconds, old(result.data), 0)
                  == ScanFrom(ids, library, seconds, result.data, k)
      {
        if ids[k] != 0 {
          var _ := result.Fetch(library, ids[k]);
          if result.data.id != 0 && result.data.duration <= seconds {
            ids := ids[k := 0];
            return;
          }
        }
      }
      result.Clear();
    }

    /** Fetch the first live id into `result` and bury it; a missing row leaves `result` as it was. */
    method PopFront(library: Library, result: PlayableItem)
      modifies this, result
      ensures ids == PopFrontIds(old(ids))
      ensures result.data == PopFrontData(old(ids), library, old(result.data))
    {
      for k := 0 to |ids|
        invariant ids == old(ids) && result.data == old(result.data)
        invariant FirstLive(ids, 0) == FirstLive(ids, k)
      {
        if ids[k] != 0 {
          var _ := result.Fetch(library, ids[k]);
          ids := ids[k := 0];
          return;
        }
      }
      result.Clear();
    }
  }
}
