// Loading a playlist with its children through the view that joins them.

module Views {
  import opened Options
  import opened Schema
  import opened Store
  import opened IdText
  import opened Playlist
  import opened Filling

  /** A playlist as it is loaded; a loaded row sets every column. */
  datatype Loaded = Loaded(id: int, name: string, weight: int, items: seq<int>)

  predicate NoRepeats(ids: seq<int>) {
    forall j, k :: 0 <= j < k < |ids| ==> ids[j] != ids[k]
  }

  /** An order in which the view may list the children: each once, longest first. */
  predicate ViewOrder(db: Database, id: int, order: seq<int>) {
    && Listed(order) == ChildrenOf(db, id)
    && NoRepeats(order)
    && LongestFirst(db.items, order)
  }

  predicate LongestFirst(items: Library, order: seq<int>) {
    forall j, k :: 0 <= j < k < |order| && order[j] in items && order[k] in items ==>
      NotShorter(items[order[j]].duration, items[order[k]].duration)
  }

  /** Descending order of a column that may be NULL, which comes last. */
  predicate NotShorter(a: Option<int>, b: Option<int>) {
    b.None? || (a.Some? && a.value >= b.value)
  }

  /** One row of Playlists_with_children, in text form for the children; there is none without children. */
  datatype ViewRow = ViewRow(id: int, name: Option<string>, weight: Option<int>, children: string)

  function SelectById(db: Database, id: int, order: seq<int>): Option<ViewRow> {
    if id in db.playlists && order != []
    then Some(ViewRow(id, db.playlists[id].name, db.playlists[id].weight, GroupConcat(order)))
    else None
  }

  function FromRow(row: ViewRow): Loaded {
    Loaded(ColumnInt(row.id), ColumnText(row.name), ColumnIntOrZero(row.weight), ReadAll(Split(row.children)))
  }

  /** Fill a cleared message from the row, column by column. */
  method ProtoFromRow(row: ViewRow) returns (m: Loaded)
    ensures m == FromRow(row)
  {
    m := Loaded(0, "", 0, []);
    m := m.(id := ColumnInt(row.id));
    m := m.(name := ColumnText(row.name));
    m := m.(weight := ColumnIntOrZero(row.weight));
    var items := AppendIds(m.items, row.children);
    m := m.(items := items);
  }

  function LoadById(db: Database, id: int, order: seq<int>): Option<Loaded> {
    var row := SelectById(db, id, order);
    if row.Some? then Some(FromRow(row.value)) else None
  }

  lemma ListedNothing(order: seq<int>)
    ensures Listed(order) == {} <==> order == []
  {
    assert order != [] ==> order[0] in Listed(order);
  }

  /** A playlist is found exactly if it has children, and its ids are read back in the view's order. */
  lemma LoadedChildren(db: Database, id: int, order: seq<int>)
    requires ViewOrder(db, id, order) && id in db.playlists
    ensures LoadById(db, id, order).Some? <==> ChildrenOf(db, id) != {}
    ensures LoadById(db, id, order).Some? ==> LoadById(db, id, order).value.items == order
  {
    ListedNothing(order);
    if order != [] {
      SplitInvertsGroupConcat(order);
    }
  }

  /**
   * Save and load: after a committed REPLACE of a playlist, loading its id finds something if and only if
   * children are stored; the id and the weight come back unchanged if and only if they fit 32 bits, the
   * name always does, and the ids loaded are those stored before and, if the id fits, those listed.
   */
  lemma RoundTrip(db: Database, m: Message, newId: int, order: seq<int>)
    requires Integrity(db) && m.PlaylistMessage?
    requires Save(db, Replace, m, newId).outcome == Committed
    requires ViewOrder(Save(db, Replace, m, newId).db, RowId(m, newId), order)
    ensures var id := RowId(m, newId);
            var children := ChildrenOf(db, id) + if Fits32(id) then Listed(m.items) else {};
            var loaded := LoadById(Save(db, Replace, m, newId).db, id, order);
            && (loaded.Some? <==> children != {})
            && (loaded.Some? ==>
                  && (loaded.value.id == id <==> Fits32(id))
                  && (m.name.Some? ==> loaded.value.name == m.name.value)
                  && (m.weight.Some? ==> (loaded.value.weight == m.weight.value <==> Fits32(m.weight.value)))
                  && Listed(loaded.value.items) == children && loaded.value.items == order)
  {
    var id, after := RowId(m, newId), Save(db, Replace, m, newId).db;
    ReplaceCommitsTarget(db, m, newId);
    ReplaceOnlyAddsChildren(db, m, newId, id);
    LoadedChildren(after, id, order);
  }

  // ---- Items ---------------------------------------------------------------------------------

  /**
   * Save and fetch: after a committed REPLACE of an item, a lookup by its id finds what was saved, whatever
   * the message looked up into held before; numbers come back unchanged if and only if they fit 32 bits,
   * and what was not set comes back as empty or 0. Every other item that is still there is as it was.
   */
  lemma ItemRoundTrip(db: Database, m: Message, newId: int, before: ItemData, other: int)
    requires Integrity(db) && m.ItemMessage? && Save(db, Replace, m, newId).outcome == Committed
    ensures var id, after := RowId(m, newId), Save(db, Replace, m, newId).db.items;
            var got := Fetched(after, id, before);
            && (got.id == id <==> Fits32(id))
            && got.filename == Some(if m.filename.Some? then m.filename.value else "")
            && got.description == (if m.description.Some? then m.description.value else "")
            && (if m.duration.Some? then got.duration == m.duration.value <==> Fits32(m.duration.value)
                else got.duration == 0)
            && (if m.playcount.Some? then got.playcount == m.playcount.value <==> Fits32(m.playcount.value)
                else got.playcount == 0)
            && (other != id ==>
                  && (other in after <==>
                        other in db.items && !(m.filename.Some? && db.items[other].filename == m.filename))
                  && (other in after ==> after[other] == db.items[other]))
  {
  }

  // ---- Longest first -------------------------------------------------------------------------

  /** Durations that are read back as stored, and, where one is missing and reads as 0, none below that. */
  predicate PlainDurations(items: Library, order: seq<int>) {
    forall j, k :: 0 <= j < |order| && 0 <= k < |order| && order[j] in items && order[k] in items ==>
      var a, b := items[order[j]].duration, items[order[k]].duration;
      a.Some? ==> Fits32(a.value) && (b.None? ==> a.value >= 0)
  }

  lemma LongestFirstIsDescending(items: Library, order: seq<int>)
    requires LongestFirst(items, order) && PlainDurations(items, order)
    ensures Descending(order, items)
  {
    forall j, k | 0 <= j < k < |order| && HasRow(items, order[j]) && HasRow(items, order[k])
      ensures Duration(items, order[j]) >= Duration(items, order[k])
    {
      assert NotShorter(items[order[j]].duration, items[order[k]].duration);
    }
  }

  /**
   * A loaded playlist is what the bumper pass supposes: in the order of the view the ids are longest first,
   * as the durations read, unless a duration does not fit 32 bits or a negative one stands beside a missing.
   */
  lemma LoadedListIsDescending(db: Database, id: int, order: seq<int>)
    requires ViewOrder(db, id, order) && PlainDurations(db.items, order) && id in db.playlists
    ensures Descending(order, db.items)
    ensures LoadById(db, id, order).Some? ==> Descending(LoadById(db, id, order).value.items, db.items)
  {
    LongestFirstIsDescending(db.items, order);
    LoadedChildren(db, id, order);
  }

  /** Of any two tracks, one that is stored as no shorter reads as no shorter. */
  ghost predicate ReadsInOrder(items: Library) {
    forall a, b :: HasRow(items, a) && HasRow(items, b) && a != b ==>
      (NotShorter(items[a].duration, items[b].duration) ==> Duration(items, a) >= Duration(items, b))
  }

  /** Exactly when every list that is longest first as stored is so as read. */
  lemma DescendingIff(items: Library)
    ensures (forall order: seq<int> :: NoRepeats(order) && LongestFirst(items, order) ==> Descending(order, items))
            <==> ReadsInOrder(items)
  {
    if ReadsInOrder(items) {
      forall order: seq<int> | NoRepeats(order) && LongestFirst(items, order) ensures Descending(order, items) {
        forall j, k | 0 <= j < k < |order| && HasRow(items, order[j]) && HasRow(items, order[k])
          ensures Duration(items, order[j]) >= Duration(items, order[k])
        {
          assert order[j] != order[k] && NotShorter(items[order[j]].duration, items[order[k]].duration);
        }
      }
    } else {
      var a, b :| HasRow(items, a) && HasRow(items, b) && a != b
                  && NotShorter(items[a].duration, items[b].duration) && Duration(items, a) < Duration(items, b);
      var order := [a, b];
      assert HasRow(items, order[0]) && HasRow(items, order[1]) && LongestFirst(items, order) && NoRepeats(order);
      assert !Descending(order, items);
    }
  }

  /** A duration of 2^31 seconds sorts first and reads as negative. */
  lemma WideDurationsAreMisread()
    ensures var items, order := map[1 := ItemRow(None, Some(INT_HALF), None, None),
                                    2 := ItemRow(None, Some(1), None, None)], [1, 2];
            LongestFirst(items, order) && !Descending(order, items)
  {
    var items := map[1 := ItemRow(None, Some(INT_HALF), None, None), 2 := ItemRow(None, Some(1), None, None)];
    assert HasRow(items, [1, 2][0]) && HasRow(items, [1, 2][1]);
  }

  // ---- All tracks ----------------------------------------------------------------------------

  /** A window of at most `limit` ids from `offset` on of all tracks, each once, longest first. */
  ghost predicate SuperOrder(items: Library, limit: nat, offset: nat, order: seq<int>) {
    exists all: seq<int> :: SuperAll(items, all) && order == Window(all, limit, offset)
  }

  predicate SuperAll(items: Library, all: seq<int>) {
    Listed(all) == items.Keys && NoRepeats(all) && LongestFirst(items, all)
  }

  function Window(all: seq<int>, limit: nat, offset: nat): seq<int> {
    if offset >= |all| then [] else if |all| - offset <= limit then all[offset..] else all[offset..offset + limit]
  }

  /** The ids loaded from the list of all tracks, in text form meanwhile; without any there is no row. */
  function LoadAll(order: seq<int>): seq<int> {
    if order == [] then [] else ReadAll(Split(GroupConcat(order)))
  }

  /** `PlainDurations` of all tracks. */
  predicate PlainTracks(items: Library) {
    forall a, b :: a in items && b in items ==>
      items[a].duration.Some? ==>
        Fits32(items[a].duration.value) && (items[b].duration.None? ==> items[a].duration.value >= 0)
  }

  lemma WindowIsDescending(items: Library, all: seq<int>, limit: nat, offset: nat)
    requires Descending(all, items)
    ensures Descending(Window(all, limit, offset), items)
  {
    var order := Window(all, limit, offset);
    forall j, k | 0 <= j < k < |order| && HasRow(items, order[j]) && HasRow(items, order[k])
      ensures Duration(items, order[j]) >= Duration(items, order[k])
    {
      assert order[j] == all[offset + j] && order[k] == all[offset + k];
    }
  }

  /**
   * The default bumpers are all tracks: they too are longest first as read, and with no offset and a limit
   * that does not bite, every track is among them exactly once.
   */
  lemma SuperlistIsDescending(items: Library, limit: nat, offset: nat, order: seq<int>)
    requires SuperOrder(items, limit, offset, order)
    requires PlainTracks(items)
    ensures LoadAll(order) == order && Descending(order, items)
    ensures offset == 0 && |items| <= limit ==>
              Listed(order) == items.Keys && NoRepeats(order)
  {
    var all: seq<int> :| SuperAll(items, all) && order == Window(all, limit, offset);
    assert PlainDurations(items, all);
    LongestFirstIsDescending(items, all);
    WindowIsDescending(items, all, limit, offset);
    if order != [] {
      SplitInvertsGroupConcat(order);
    }
    ListedOnce(all);
  }

  lemma {:induction false} ListedOnce(ids: seq<int>)
    requires NoRepeats(ids)
    ensures |Listed(ids)| == |ids|
  {
    if ids != [] {
      var n := |ids| - 1;
      ListedOnce(ids[..n]);
      assert Listed(ids) == Listed(ids[..n]) + {ids[n]};
    }
  }
}
