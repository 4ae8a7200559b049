// What playing a track does to the library: its play count is raised and the row as read is written back.

module Playing {
  import opened Options
  import opened Schema
  import opened Playlist
  import opened Store
  import opened Filling
  import opened AutomationState
  import opened Runs
  import opened Deadlines
  import opened Passing
  import opened BumperPass

  /** The item that is saved when a track is played; the play count is a 32-bit field. */
  function Played(item: ItemData): Message {
    ItemMessage(Some(item.id), item.filename, Some(item.duration), Some(item.description),
                Some(ColumnInt(item.playcount + 1)))
  }

  /** The save as the player makes it. */
  function Recording(db: Database, item: ItemData): Saved {
    Save(db, Update, Played(item), 0)
  }

  /** The row `row` as it is written back. */
  function Counted(row: ItemRow): ItemRow {
    ItemRow(Some(ColumnText(row.filename)), Some(ColumnIntOrZero(row.duration)),
            Some(ColumnText(row.description)), Some(ColumnInt(ColumnIntOrZero(row.playcount) + 1)))
  }

  /**
   * The id as read picks out another track than was played, whose row the write then overwrites: the id is
   * wide, its low half is another's and not -1, and no file name stands in the way.
   */
  predicate HitsAnother(items: Library, id: int)
    requires id in items
  {
    var local := ColumnInt(id);
    && local != id && local != -1 && local in items
    && !FileTaken(items - {local}, local, Some(ColumnText(items[id].filename)))
  }

  /** The track itself is written back: its id reads as it is, and no other row has its name. */
  predicate HitsItself(items: Library, id: int)
    requires id in items
  {
    Fits32(id) && id != -1 && !FileTaken(items - {id}, id, Some(ColumnText(items[id].filename)))
  }

  lemma RecordingRoot(db: Database, id: int)
    requires Integrity(db) && id in db.items
    ensures var local, m := ColumnInt(id), Played(RowData(id, db.items[id]));
            && LocalId(m, 0) == RowId(m, 0) == local && ChildIds(m) == [] && SingularFields(m) != []
            && WhereId(m, 0) == Some(local)
  {
    WhereIdIs(Played(RowData(id, db.items[id])), 0);
  }

  /** All that playing a track can change is one row, and that becomes the row played, counted once more. */
  lemma RecordingWrites(db: Database, id: int)
    requires Integrity(db) && id in db.items
    ensures var local, row, saved := ColumnInt(id), db.items[id], Recording(db, RowData(id, db.items[id]));
            if HitsItself(db.items, id) || HitsAnother(db.items, id)
            then saved.outcome == Committed && saved.db == db.(items := db.items[local := Counted(row)])
            else saved.db == db
  {
    var local, row := ColumnInt(id), db.items[id];
    RecordingRoot(db, id);
    if local in db.items {
      assert (db.items - {local})[local := Counted(row)] == db.items[local := Counted(row)];
    }
  }

  /** A track with a 32-bit id other than -1 and a file name is counted, and reads as before but for the count. */
  lemma PlayIsCounted(db: Database, id: int, other: int)
    requires Integrity(db) && id in db.items && Fits32(id) && id != -1 && db.items[id].filename.Some?
    ensures var item, saved := RowData(id, db.items[id]), Recording(db, RowData(id, db.items[id]));
            && saved.outcome == Committed && saved.db.items.Keys == db.items.Keys
            && RowData(id, saved.db.items[id]) == item.(playcount := ColumnInt(item.playcount + 1))
            && (other != id && other in db.items ==> saved.db.items[other] == db.items[other])
  {
    RecordingWrites(db, id);
  }

  /**
   * Exactly when playing a track leaves all tracks and durations as they are: unless the write goes to
   * another row, whose duration is a different one.
   */
  lemma RecordingKeepsTracksIff(db: Database, id: int)
    requires Integrity(db) && id in db.items
    ensures var after := Recording(db, RowData(id, db.items[id])).db;
            && after.items.Keys == db.items.Keys && Integrity(after)
            && (SameTracks(db.items, after.items) <==>
                  !(HitsAnother(db.items, id) && Duration(db.items, ColumnInt(id)) != Duration(db.items, id)))
  {
    RecordingWrites(db, id);
    SaveKeepsIntegrity(db, Update, Played(RowData(id, db.items[id])), 0);
  }

  /** A named track 1, and a nameless one whose id reads as 1. */
  const CONFUSABLE: Library :=
    map[1 := ItemRow(Some("1.mp3"), Some(10), None, None), INT_SPAN + 1 := ItemRow(None, Some(20), None, None)]

  /** Playing the nameless track turns track 1 into it: its name is lost and its duration is another. */
  lemma AnotherIsOverwritten()
    ensures var db := Database(map[], CONFUSABLE, {}, {});
            var after := Recording(db, RowData(INT_SPAN + 1, CONFUSABLE[INT_SPAN + 1])).db.items;
            && Integrity(db) && HitsAnother(CONFUSABLE, INT_SPAN + 1)
            && after[1] == ItemRow(Some(""), Some(20), Some(""), Some(1)) && !SameTracks(CONFUSABLE, after)
  {
    var db := Database(map[], CONFUSABLE, {}, {});
    assert ColumnInt(INT_SPAN + 1) == 1;
    RecordingWrites(db, INT_SPAN + 1);
  }

  /** A track can be told by its 32-bit id, or at least has a file name. */
  predicate Identified(items: Library) {
    forall id :: id in items ==> Fits32(id) || items[id].filename.Some?
  }

  /** Then no play writes to another track's row: the unique file name stops it. */
  lemma IdentifiedTracksAreKept(db: Database, id: int)
    requires Integrity(db) && Identified(db.items) && id in db.items
    ensures var after := Recording(db, RowData(id, db.items[id])).db;
            Integrity(after) && Identified(after.items) && SameTracks(db.items, after.items)
  {
    var local := ColumnInt(id);
    if !Fits32(id) {
      assert id in db.items - {local};
      assert FileTaken(db.items - {local}, local, Some(ColumnText(db.items[id].filename)));
    }
    RecordingWrites(db, id);
    RecordingKeepsTracksIff(db, id);
  }

  // ---- Any number of plays -------------------------------------------------------------------

  /** The database after the tracks `ids` are played one after another. */
  function RecordAll(db: Database, ids: seq<int>): Database {
    if ids == [] then db
    else
      var before, id := RecordAll(db, ids[..|ids| - 1]), ids[|ids| - 1];
      if id in before.items then Recording(before, RowData(id, before.items[id])).db else before
  }

  lemma {:induction false} PlaysKeepTracks(db: Database, ids: seq<int>)
    requires Integrity(db) && Identified(db.items)
    ensures var after := RecordAll(db, ids);
            Integrity(after) && Identified(after.items) && SameTracks(db.items, after.items)
  {
    if ids != [] {
      var pre, id := ids[..|ids| - 1], ids[|ids| - 1];
      PlaysKeepTracks(db, pre);
      if id in RecordAll(db, pre).items {
        IdentifiedTracksAreKept(RecordAll(db, pre), id);
      }
    }
  }

  // ---- Over a run ----------------------------------------------------------------------------

  /** The track a step plays itself. */
  function Heard(v: Event): Option<ItemData> {
    match v
    case PlayedMain(item) => Some(item)
    case PlayedBumper(item) => Some(item)
    case _ => None
  }

  /** What a step plays is read from a row of the library, so its write is the recording of one play. */
  lemma HeardIsRecorded(r: Run, k: nat, db: Database) returns (id: int)
    requires r.Valid() && k < |r.envs| && Heard(r.events[k]).Some? && db.items == r.envs[k].library
    ensures id in db.items && Heard(r.events[k]) == Some(RowData(id, db.items[id]))
    ensures Recording(db, Heard(r.events[k]).value).db == RecordAll(db, [id])
  {
    var clock, deadline, last := AnyPassAt(r, k);
    var s, e := r.states[k], r.envs[k];
    var t := clock + e.dMain;
    var ids, limit := if r.events[k].PlayedMain? then s.mainshow else BumpersAt(s, e),
                      if r.events[k].PlayedMain? then last - t else last - (t + e.dCutoff + e.dBumper);
    id := ids[FirstFit(ids, e.library, limit, 0).value];
    assert [id][..0] == [];
  }

  /** From step `j` to the next the database changes by the tracks played meanwhile, whoever played them. */
  predicate RecordsPlays(r: Run, dbs: seq<Database>, plays: seq<seq<int>>, j: nat)
    requires |dbs| == |plays| == |r.envs| && j + 1 < |r.envs|
  {
    dbs[j + 1] == RecordAll(dbs[j], plays[j])
  }

  /** Steps `i` to `k` see a database that nothing but plays has changed since step `i`. */
  predicate OnlyPlays(r: Run, dbs: seq<Database>, plays: seq<seq<int>>, i: nat, k: nat)
    requires i <= k < |r.envs|
  {
    && |dbs| == |plays| == |r.envs|
    && Integrity(dbs[i]) && Identified(dbs[i].items)
    && (forall j :: i <= j <= k ==> r.envs[j].library == dbs[j].items)
    && (forall j :: i <= j < k ==> RecordsPlays(r, dbs, plays, j))
  }

  lemma {:induction false} TracksStay(r: Run, dbs: seq<Database>, plays: seq<seq<int>>, i: nat, k: nat)
    requires i <= k < |r.envs| && OnlyPlays(r, dbs, plays, i, k)
    ensures Integrity(dbs[k]) && Identified(dbs[k].items) && SameTracks(r.envs[k].library, r.envs[i].library)
    decreases k - i
  {
    if i < k {
      TracksStay(r, dbs, plays, i, k - 1);
      assert RecordsPlays(r, dbs, plays, k - 1);
      PlaysKeepTracks(dbs[k - 1], plays[k - 1]);
    }
  }

  /** As long as nothing but plays changes the database, a mainshow in which nothing fits stays so. */
  lemma StaysStuckAcrossPlays(r: Run, dbs: seq<Database>, plays: seq<seq<int>>, i: nat, k: nat)
    requires r.Quiet() && i < k < |r.envs| && OnlyPlays(r, dbs, plays, i, k) && NoBlock(r, i, k + 1)
    requires forall j :: i <= j <= k ==> !r.events[j].DrewMainshow?
    requires DueAt(r.c, r.states[i]).Some? && !r.events[i].PlayedMain?
    ensures !r.events[k].PlayedMain? && r.states[k].mainshow == r.states[i].mainshow
  {
    forall j | i <= j <= k ensures SameTracks(r.envs[j].library, r.envs[i].library) {
      TracksStay(r, dbs, plays, i, j);
    }
    MainshowStaysStuck(r, i, k, r.envs[i].library);
  }

  /** Nor does it matter to a pass over the bumpers that every bumper's play count changes when it is played. */
  lemma HalfOptimalAcrossPlays(r: Run, dbs: seq<Database>, plays: seq<seq<int>>, i: nat, k: nat, mask: seq<bool>)
    requires r.Quiet() && i <= k < |r.envs| && OnlyPlays(r, dbs, plays, i, k) && NoBlock(r, i, k)
    requires DueAt(r.c, r.states[i]).Some? && Rival(r.states[i], r.envs[i].library, LastEnd(r.c, r.states[i]), mask)
    requires forall j :: i <= j < k ==> ExactBumper(r, j, r.envs[j].library)
    requires Stops(r, k, r.envs[k].library)
    ensures r.states[k].clock <= LastEnd(r.c, r.states[i])
    ensures (r.events[k].RanBlock? && r.states[k].clock >= DueAt(r.c, r.states[i]).value)
            || SelectedTotal(r.states[i].bumpers, r.envs[i].library, mask)
               <= 2 * (r.states[k].clock - r.states[i].clock)
  {
    forall j | i <= j <= k ensures SameTracks(r.envs[j].library, r.envs[i].library) {
      TracksStay(r, dbs, plays, i, j);
    }
    forall j | i <= j < k ensures ExactBumper(r, j, r.envs[i].library) {
      assert ExactBumper(r, j, r.envs[j].library);
    }
    BumperPassEnds(r, i, k, r.envs[i].library, mask);
  }
}
