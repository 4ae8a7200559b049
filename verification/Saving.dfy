// What each kind of save writes, row by row, and when it is refused.

module Saving {
  import opened Options
  import opened Schema
  import opened Statements
  import opened Store

  /** The row a message is meant for: the id it has, or the one the database assigns. */
  function Given(id: Option<int>, newId: int): int {
    if id.Some? then id.value else newId
  }

  /** The id a message is left with once its row is written: what it had, unless that was none or reads as -1. */
  function IdLeft(id: Option<int>, newId: int): Option<int> {
    if id.None? || ColumnInt(id.value) == -1 then Some(ColumnInt(Given(id, newId))) else id
  }

  function AsLeft(m: Message, newId: int): Message {
    match m
    case PlaylistMessage(id, name, weight, items) => PlaylistMessage(IdLeft(id, newId), name, weight, items)
    case ItemMessage(id, filename, duration, description, playcount) =>
      ItemMessage(IdLeft(id, newId), filename, duration, description, playcount)
    case LockMessage(_) => m
  }

  /** A field that is given wins over what is stored. */
  function Over<T>(given: Option<T>, stored: Option<T>): Option<T> {
    match given
    case Some(_) => given
    case None => stored
  }

  lemma NothingSet(m: Message)
    ensures SingularFields(m) == [] <==>
              match m
              case PlaylistMessage(id, name, weight, _) => id.None? && name.None? && weight.None?
              case ItemMessage(id, filename, duration, description, playcount) =>
                id.None? && filename.None? && duration.None? && description.None? && playcount.None?
              case LockMessage(lock) => lock.None?
  {
  }

  lemma LeftIs(m: Message, newId: int)
    ensures WithId(m, newId) == AsLeft(m, newId)
  {
  }

  /** What becomes of a playlist save whose root statement took effect. */
  lemma FinishIs(db: Database, rooted: Database, m: Message, newId: int)
    ensures var local, saved := LocalId(m, newId), Finish(db, rooted, m, newId);
            var full := rooted.(children := rooted.children + ChildRows(local, ChildIds(m)));
            var ok := CanBeParents(rooted, local, ChildIds(m)) && LocksHeld(full);
            saved == Saved(if ok then full else db, if ok then Committed else Violation, AsLeft(m, newId))
  {
    AddChildrenIs(rooted, LocalId(m, newId), ChildIds(m));
    LeftIs(m, newId);
  }

  // ---- Columns -------------------------------------------------------------------------------

  lemma AssignsSet(m: Message, name: string, v: Value)
    ensures Assigns(ListFields(m), name, v) <==> Singular(name, v) in SingularFields(m)
  {
    SingularFieldsArePlain(m);
    AssignsIff(SingularFields(m), if ChildIds(m) == [] then [] else [Repeated("PlayableItemID", ChildIds(m))], name, v);
  }

  lemma IntFieldHas(f: string, x: Option<int>, name: string, v: Value)
    ensures Singular(name, v) in IntField(f, x) <==> name == f && x.Some? && v == IntValue(x.value)
  {
  }

  lemma TextFieldHas(f: string, x: Option<string>, name: string, v: Value)
    ensures Singular(name, v) in TextField(f, x) <==> name == f && x.Some? && v == TextValue(x.value)
  {
  }

  lemma OtherFields(m: Message, name: string, v: Value)
    requires !m.ItemMessage?
    ensures Singular(name, v) in SingularFields(m) <==>
              match m
              case PlaylistMessage(id, text, weight, _) =>
                Singular(name, v) in IntField("PlaylistID", id) || Singular(name, v) in TextField("name", text)
                || Singular(name, v) in IntField("weight", weight)
              case LockMessage(lock) => Singular(name, v) in TextField("name", lock)
              case ItemMessage(_, _, _, _, _) => false
  {
  }

  lemma ItemFields(m: Message, name: string, v: Value)
    requires m.ItemMessage?
    ensures Singular(name, v) in SingularFields(m) <==>
              || Singular(name, v) in IntField("PlayableItemID", m.id)
              || Singular(name, v) in TextField("filename", m.filename)
              || Singular(name, v) in IntField("duration", m.duration)
              || Singular(name, v) in TextField("description", m.description)
              || Singular(name, v) in IntField("playcount", m.playcount)
  {
  }

  /** The statement for a message assigns its columns what the message gives, and leaves out what it does not. */
  lemma StatementAssigns(m: Message, name: string, v: Value)
    ensures Assigns(ListFields(m), name, v) <==>
              match m
              case PlaylistMessage(id, text, weight, _) =>
                || (name == "PlaylistID" && id.Some? && v == IntValue(id.value))
                || (name == "name" && text.Some? && v == TextValue(text.value))
                || (name == "weight" && weight.Some? && v == IntValue(weight.value))
              case ItemMessage(id, filename, duration, description, playcount) =>
                || (name == "PlayableItemID" && id.Some? && v == IntValue(id.value))
                || (name == "filename" && filename.Some? && v == TextValue(filename.value))
                || (name == "duration" && duration.Some? && v == IntValue(duration.value))
                || (name == "description" && description.Some? && v == TextValue(description.value))
                || (name == "playcount" && playcount.Some? && v == IntValue(playcount.value))
              case LockMessage(lock) => name == "name" && lock.Some? && v == TextValue(lock.value)
  {
    AssignsSet(m, name, v);
    match m {
      case PlaylistMessage(id, text, weight, _) =>
        OtherFields(m, name, v);
        IntFieldHas("PlaylistID", id, name, v);
        TextFieldHas("name", text, name, v);
        IntFieldHas("weight", weight, name, v);
      case ItemMessage(id, filename, duration, description, playcount) =>
        ItemFields(m, name, v);
        IntFieldHas("PlayableItemID", id, name, v);
        TextFieldHas("filename", filename, name, v);
        IntFieldHas("duration", duration, name, v);
        TextFieldHas("description", description, name, v);
        IntFieldHas("playcount", playcount, name, v);
      case LockMessage(lock) =>
        OtherFields(m, name, v);
        TextFieldHas("name", lock, name, v);
    }
  }

  // ---- Playlists -----------------------------------------------------------------------------

  predicate HasName(rows: map<int, PlaylistRow>, p: int, name: Option<string>) {
    name.Some? && p in rows && rows[p].name == name
  }

  /** A lock holds the name that row `id` has, and `name` is another. */
  predicate LockLost(db: Database, id: int, name: Option<string>) {
    && id in db.playlists && db.playlists[id].name.Some? && db.playlists[id].name.value in db.locks
    && db.playlists[id].name != name
  }

  /** The children of a playlist message can be added to `id` beside the rows `rows`. */
  predicate ChildrenFit(db: Database, rows: map<int, PlaylistRow>, id: int, items: seq<int>) {
    (items != [] ==> id in rows) && forall i :: i in items ==> i in db.items
  }

  /**
   * INSERT of a playlist: the row of its id, or of the new id if it has none. A taken id or name refuses it
   * before anything is changed; a missing parent of a child afterwards.
   */
  lemma InsertPlaylist(db: Database, m: Message, newId: int)
    requires Integrity(db) && m.PlaylistMessage? && (m.id.Some? || m.name.Some? || m.weight.Some?)
    ensures var id, saved := if m.id.Some? then m.id.value else newId, Save(db, Insert, m, newId);
            var rows := db.playlists[id := PlaylistRow(m.name, m.weight)];
            if id in db.playlists || exists p :: HasName(db.playlists, p, m.name) then saved == Saved(db, Violation, m)
            else if !ChildrenFit(db, rows, ColumnInt(id), m.items) then saved == Saved(db, Violation, AsLeft(m, newId))
            else saved == Saved(db.(playlists := rows, children := db.children + ChildRows(ColumnInt(id), m.items)),
                                Committed, AsLeft(m, newId))
  {
    var id := if m.id.Some? then m.id.value else newId;
    var rows := db.playlists[id := PlaylistRow(m.name, m.weight)];
    NothingSet(m);
    if !(id in db.playlists || exists p :: HasName(db.playlists, p, m.name)) {
      InsertRoot(db, m, newId, id);
      FinishIs(db, db.(playlists := rows), m, newId);
      AddedNamesHold(db, rows, ColumnInt(id), m.items);
    } else {
      InsertRefused(db, m, newId, id);
    }
  }

  lemma InsertRoot(db: Database, m: Message, newId: int, id: int)
    requires ParentsExist(db) && m.PlaylistMessage? && SingularFields(m) != []
    requires id == if m.id.Some? then m.id.value else newId
    requires id !in db.playlists && forall p :: !HasName(db.playlists, p, m.name)
    ensures RootStep(db, Insert, m, newId) == Done(db.(playlists := db.playlists[id := PlaylistRow(m.name, m.weight)]))
    ensures LocalId(m, newId) == ColumnInt(id)
  {
    assert !NameTaken(db.playlists, id, m.name) by {
      if NameTaken(db.playlists, id, m.name) {
        var p :| p in db.playlists && p != id && m.name.Some? && db.playlists[p].name == m.name;
        assert HasName(db.playlists, p, m.name);
      }
    }
  }

  lemma InsertRefused(db: Database, m: Message, newId: int, id: int)
    requires m.PlaylistMessage? && SingularFields(m) != []
    requires id == if m.id.Some? then m.id.value else newId
    requires id in db.playlists || exists p :: HasName(db.playlists, p, m.name)
    ensures RootStep(db, Insert, m, newId) == Conflict
  {
  }

  /** Rows that keep every name keep every lock. */
  lemma AddedNamesHold(db: Database, rows: map<int, PlaylistRow>, local: int, items: seq<int>)
    requires LocksHeld(db) && forall p :: p in db.playlists ==> p in rows && rows[p] == db.playlists[p]
    ensures LocksHeld(db.(playlists := rows, children := db.children + ChildRows(local, items)))
  {
    forall name | name in db.locks ensures exists p :: p in rows && rows[p].name == Some(name) {
      assert Named(db, name);
      var p :| p in db.playlists && db.playlists[p].name == Some(name);
      assert p in rows && rows[p].name == Some(name);
    }
  }

  /** The rows that do not have the name. */
  function WithoutName(rows: map<int, PlaylistRow>, name: Option<string>): map<int, PlaylistRow> {
    map p | p in rows && !HasName(rows, p, name) :: rows[p]
  }

  /** A playlist other than `id` has the name and has children, which a REPLACE of it would orphan. */
  predicate OrphansByName(db: Database, id: int, name: Option<string>) {
    exists c :: c in db.children && c.0 != id && HasName(db.playlists, c.0, name)
  }

  lemma ReplaceRoot(db: Database, m: Message, newId: int, id: int)
    requires ParentsExist(db) && m.PlaylistMessage? && SingularFields(m) != []
    requires id == if m.id.Some? then m.id.value else newId
    ensures RootStep(db, Replace, m, newId) ==
              if OrphansByName(db, id, m.name) then Conflict
              else Done(db.(playlists := WithoutName(db.playlists, m.name)[id := PlaylistRow(m.name, m.weight)]))
    ensures LocalId(m, newId) == ColumnInt(id)
  {
    var rows := WithoutName(db.playlists, m.name)[id := PlaylistRow(m.name, m.weight)];
    assert PutPlaylist(db.playlists, id, m) == rows;
    var rooted := db.(playlists := rows);
    if OrphansByName(db, id, m.name) {
      var c :| c in db.children && c.0 != id && HasName(db.playlists, c.0, m.name);
      assert c in rooted.children && c.0 !in rows;
    }
  }

  /** With row `id` renamed to `name`, and rows of that name gone, the locks hold unless the old name was locked. */
  lemma RenamedLocks(db: Database, after: Database, id: int, name: Option<string>)
    requires UniqueNames(db.playlists) && LocksHeld(db) && after.locks == db.locks
    requires exists p :: p in after.playlists && after.playlists[p].name == name
    requires forall p :: p in db.playlists && p != id ==>
               HasName(db.playlists, p, name) || (p in after.playlists && after.playlists[p] == db.playlists[p])
    requires forall p :: p in after.playlists ==>
               || after.playlists[p].name == name
               || (p != id && p in db.playlists && after.playlists[p] == db.playlists[p])
    ensures LocksHeld(after) <==> !LockLost(db, id, name)
  {
    forall lock | lock in db.locks && !LockLost(db, id, name) ensures Named(after, lock) {
      assert Named(db, lock);
    }
    if LockLost(db, id, name) {
      assert !Named(after, db.playlists[id].name.value);
    }
  }

  /**
   * REPLACE of a playlist: the row of its id, or of the new id, holds exactly what is given, and other rows
   * of that name are gone. It is refused if one of those has children, if a child's parent is missing, or if
   * the row had a locked name and is given another.
   */
  lemma ReplacePlaylist(db: Database, m: Message, newId: int)
    requires Integrity(db) && m.PlaylistMessage? && (m.id.Some? || m.name.Some? || m.weight.Some?)
    ensures var id, saved := if m.id.Some? then m.id.value else newId, Save(db, Replace, m, newId);
            var rows := WithoutName(db.playlists, m.name)[id := PlaylistRow(m.name, m.weight)];
            if OrphansByName(db, id, m.name) then saved == Saved(db, Violation, m)
            else if !ChildrenFit(db, rows, ColumnInt(id), m.items) || LockLost(db, id, m.name)
            then saved == Saved(db, Violation, AsLeft(m, newId))
            else saved == Saved(db.(playlists := rows, children := db.children + ChildRows(ColumnInt(id), m.items)),
                                Committed, AsLeft(m, newId))
  {
    var id := if m.id.Some? then m.id.value else newId;
    var rows := WithoutName(db.playlists, m.name)[id := PlaylistRow(m.name, m.weight)];
    NothingSet(m);
    ReplaceRoot(db, m, newId, id);
    if !OrphansByName(db, id, m.name) {
      FinishIs(db, db.(playlists := rows), m, newId);
      assert id in rows && rows[id].name == m.name;
      RenamedLocks(db, db.(playlists := rows, children := db.children + ChildRows(ColumnInt(id), m.items)), id, m.name);
    }
  }

  /** A row `p` that is not to be touched by an UPDATE of row `local` has the id or the name it is to get. */
  predicate UpdateClashes(rows: map<int, PlaylistRow>, local: int, id: int, name: Option<string>) {
    exists p :: p in rows && p != local && (p == id || HasName(rows, p, name))
  }

  lemma UpdateRoot(db: Database, m: Message, newId: int)
    requires ParentsExist(db) && m.PlaylistMessage? && m.id.Some? && ColumnInt(m.id.value) != -1 && m.items == []
    requires ColumnInt(m.id.value) in db.playlists
    ensures var id, local := m.id.value, ColumnInt(m.id.value);
            var stored := db.playlists[local];
            RootStep(db, Update, m, newId) ==
              if UpdateClashes(db.playlists, local, id, m.name)
                 || (id != local && exists c :: c in db.children && c.0 == local)
              then Conflict
              else Done(db.(playlists := (db.playlists - {local})
                              [id := PlaylistRow(Over(m.name, stored.name), Over(m.weight, stored.weight))]))
  {
    var id, local := m.id.value, ColumnInt(m.id.value);
    var rest := db.playlists - {local};
    NothingSet(m);
    WhereIdIs(m, newId);
    assert NameTaken(rest, id, m.name) ==> UpdateClashes(db.playlists, local, id, m.name) by {
      if NameTaken(rest, id, m.name) {
        var p :| p in rest && p != id && m.name.Some? && rest[p].name == m.name;
        assert p in db.playlists && p != local && HasName(db.playlists, p, m.name);
      }
    }
    if UpdateClashes(db.playlists, local, id, m.name) {
      var p :| p in db.playlists && p != local && (p == id || HasName(db.playlists, p, m.name));
      assert p in rest && (p != id ==> rest[p].name == m.name);
    }
  }

  /**
   * UPDATE of a playlist: without an id that can be kept it fails; if it lists children it changes no row; if
   * there is no row of the id as kept it does nothing. Otherwise that row moves to the id given and keeps what
   * is not given. It is refused if another row has the id or name, if children are left behind, or if a locked
   * name is given up.
   */
  lemma UpdatePlaylist(db: Database, m: Message, newId: int)
    requires Integrity(db) && m.PlaylistMessage?
    ensures var saved := Save(db, Update, m, newId);
            if m.id.None? || ColumnInt(m.id.value) == -1 then saved == Saved(db, Crashed, m)
            else
              var id, local := m.id.value, ColumnInt(m.id.value);
              if m.items != [] then
                saved == if ChildrenFit(db, db.playlists, local, m.items)
                         then Saved(db.(children := db.children + ChildRows(local, m.items)), Committed, m)
                         else Saved(db, Violation, m)
              else if local !in db.playlists then saved == Saved(db, Committed, m)
              else
                var stored := db.playlists[local];
                var row := PlaylistRow(Over(m.name, stored.name), Over(m.weight, stored.weight));
                if UpdateClashes(db.playlists, local, id, m.name)
                   || (id != local && exists c :: c in db.children && c.0 == local)
                   || LockLost(db, local, row.name)
                then saved == Saved(db, Violation, m)
                else saved == Saved(db.(playlists := (db.playlists - {local})[id := row]), Committed, m)
  {
    NothingSet(m);
    if m.id.Some? && ColumnInt(m.id.value) != -1 {
      WhereIdIs(m, newId);
      if m.items != [] || ColumnInt(m.id.value) !in db.playlists {
        UpdateOfNothing(db, m, newId);
      } else {
        UpdateOfRow(db, m, newId);
      }
    }
  }

  lemma UpdateOfNothing(db: Database, m: Message, newId: int)
    requires Integrity(db) && m.PlaylistMessage? && m.id.Some? && ColumnInt(m.id.value) != -1
    requires m.items != [] || ColumnInt(m.id.value) !in db.playlists
    ensures Save(db, Update, m, newId) ==
              if ChildrenFit(db, db.playlists, ColumnInt(m.id.value), m.items)
              then Saved(db.(children := db.children + ChildRows(ColumnInt(m.id.value), m.items)), Committed, m)
              else Saved(db, Violation, m)
    ensures m.items == [] ==> Save(db, Update, m, newId) == Saved(db, Committed, m)
  {
    NothingSet(m);
    WhereIdIs(m, newId);
    assert RootStep(db, Update, m, newId) == Done(db);
    FinishIs(db, db, m, newId);
    assert m.items == [] ==> db.children + ChildRows(ColumnInt(m.id.value), m.items) == db.children;
    AddedNamesHold(db, db.playlists, ColumnInt(m.id.value), m.items);
    assert db.(playlists := db.playlists) == db;
  }

  lemma UpdateOfRow(db: Database, m: Message, newId: int)
    requires Integrity(db) && m.PlaylistMessage? && m.id.Some? && ColumnInt(m.id.value) != -1
    requires m.items == [] && ColumnInt(m.id.value) in db.playlists
    ensures var id, local, saved := m.id.value, ColumnInt(m.id.value), Save(db, Update, m, newId);
            var stored := db.playlists[local];
            var row := PlaylistRow(Over(m.name, stored.name), Over(m.weight, stored.weight));
            if UpdateClashes(db.playlists, local, id, m.name)
               || (id != local && exists c :: c in db.children && c.0 == local)
               || LockLost(db, local, row.name)
            then saved == Saved(db, Violation, m)
            else saved == Saved(db.(playlists := (db.playlists - {local})[id := row]), Committed, m)
  {
    var id, local := m.id.value, ColumnInt(m.id.value);
    var stored := db.playlists[local];
    var row := PlaylistRow(Over(m.name, stored.name), Over(m.weight, stored.weight));
    UpdateRoot(db, m, newId);
    var rooted := db.(playlists := (db.playlists - {local})[id := row]);
    if !UpdateClashes(db.playlists, local, id, m.name)
       && !(id != local && exists c :: c in db.children && c.0 == local) {
      FinishIs(db, rooted, m, newId);
      assert rooted.children + ChildRows(local, []) == rooted.children;
      assert rooted.(children := rooted.children) == rooted;
      assert id in rooted.playlists && rooted.playlists[id].name == row.name;
      assert forall p :: p in db.playlists && p != local ==> p != id;
      RenamedLocks(db, rooted, local, row.name);
    }
  }

  // ---- Items ---------------------------------------------------------------------------------

  predicate HasFile(rows: Library, p: int, filename: Option<string>) {
    filename.Some? && p in rows && rows[p].filename == filename
  }

  function WithoutFile(rows: Library, filename: Option<string>): Library {
    map p | p in rows && !HasFile(rows, p, filename) :: rows[p]
  }

  predicate AnySet(m: Message)
    requires m.ItemMessage?
  {
    m.id.Some? || m.filename.Some? || m.duration.Some? || m.description.Some? || m.playcount.Some?
  }

  /** An item has no children and carries no lock, so what the root statement leaves is committed. */
  lemma FinishItem(db: Database, rooted: Database, m: Message, newId: int)
    requires m.ItemMessage? && LocksHeld(db) && rooted == db.(items := rooted.items)
    ensures Finish(db, rooted, m, newId) == Saved(rooted, Committed, AsLeft(m, newId))
  {
    FinishIs(db, rooted, m, newId);
    assert rooted.children + ChildRows(LocalId(m, newId), []) == rooted.children;
    assert rooted.(children := rooted.children) == rooted;
    forall name | name in db.locks ensures Named(rooted, name) {
      assert Named(db, name);
    }
  }

  /** INSERT of an item: refused if the id or the file name is taken. */
  lemma InsertItem(db: Database, m: Message, newId: int)
    requires Integrity(db) && m.ItemMessage? && AnySet(m)
    ensures var id, saved := if m.id.Some? then m.id.value else newId, Save(db, Insert, m, newId);
            var row := ItemRow(m.filename, m.duration, m.description, m.playcount);
            if id in db.items || exists p :: HasFile(db.items, p, m.filename) then saved == Saved(db, Violation, m)
            else saved == Saved(db.(items := db.items[id := row]), Committed, AsLeft(m, newId))
  {
    var id := if m.id.Some? then m.id.value else newId;
    var row := ItemRow(m.filename, m.duration, m.description, m.playcount);
    NothingSet(m);
    if !(id in db.items || exists p :: HasFile(db.items, p, m.filename)) {
      assert !FileTaken(db.items, id, m.filename) by {
        if FileTaken(db.items, id, m.filename) {
          var p :| p in db.items && p != id && m.filename.Some? && db.items[p].filename == m.filename;
          assert HasFile(db.items, p, m.filename);
        }
      }
      assert RootStep(db, Insert, m, newId) == Done(db.(items := db.items[id := row]));
      FinishItem(db, db.(items := db.items[id := row]), m, newId);
    } else {
      assert RootStep(db, Insert, m, newId) == Conflict;
    }
  }

  /** REPLACE of an item: other rows of the file name go; refused if one of those is on a playlist. */
  lemma ReplaceItem(db: Database, m: Message, newId: int)
    requires Integrity(db) && m.ItemMessage? && AnySet(m)
    ensures var id, saved := if m.id.Some? then m.id.value else newId, Save(db, Replace, m, newId);
            var row := ItemRow(m.filename, m.duration, m.description, m.playcount);
            if exists c :: c in db.children && c.1 != id && HasFile(db.items, c.1, m.filename)
            then saved == Saved(db, Violation, m)
            else saved == Saved(db.(items := WithoutFile(db.items, m.filename)[id := row]), Committed, AsLeft(m, newId))
  {
    var id := if m.id.Some? then m.id.value else newId;
    var row := ItemRow(m.filename, m.duration, m.description, m.playcount);
    var rooted := db.(items := WithoutFile(db.items, m.filename)[id := row]);
    NothingSet(m);
    assert PutItem(db.items, id, m) == rooted.items;
    if c :| c in db.children && c.1 != id && HasFile(db.items, c.1, m.filename) {
      assert c in rooted.children && c.1 !in rooted.items;
      assert RootStep(db, Replace, m, newId) == Conflict;
    } else {
      assert RootStep(db, Replace, m, newId) == Done(rooted);
      FinishItem(db, rooted, m, newId);
    }
  }

  predicate ItemClashes(rows: Library, local: int, id: int, filename: Option<string>) {
    exists p :: p in rows && p != local && (p == id || HasFile(rows, p, filename))
  }

  lemma ItemUpdateRoot(db: Database, m: Message, newId: int)
    requires ParentsExist(db) && m.ItemMessage? && m.id.Some? && ColumnInt(m.id.value) != -1
    requires ColumnInt(m.id.value) in db.items
    ensures var id, local := m.id.value, ColumnInt(m.id.value);
            var stored := db.items[local];
            var row := ItemRow(Over(m.filename, stored.filename), Over(m.duration, stored.duration),
                               Over(m.description, stored.description), Over(m.playcount, stored.playcount));
            RootStep(db, Update, m, newId) ==
              if ItemClashes(db.items, local, id, m.filename)
                 || (id != local && exists c :: c in db.children && c.1 == local)
              then Conflict
              else Done(db.(items := (db.items - {local})[id := row]))
  {
    var id, local := m.id.value, ColumnInt(m.id.value);
    var rest := db.items - {local};
    NothingSet(m);
    WhereIdIs(m, newId);
    assert FileTaken(rest, id, m.filename) ==> ItemClashes(db.items, local, id, m.filename) by {
      if FileTaken(rest, id, m.filename) {
        var p :| p in rest && p != id && m.filename.Some? && rest[p].filename == m.filename;
        assert p in db.items && p != local && HasFile(db.items, p, m.filename);
      }
    }
    if p :| p in db.items && p != local && (p == id || HasFile(db.items, p, m.filename)) {
      assert p in rest && (p != id ==> rest[p].filename == m.filename);
    }
  }

  /** UPDATE of an item: as of a playlist, but that it cannot list children. */
  lemma UpdateItem(db: Database, m: Message, newId: int)
    requires Integrity(db) && m.ItemMessage?
    ensures var saved := Save(db, Update, m, newId);
            if m.id.None? || ColumnInt(m.id.value) == -1 then saved == Saved(db, Crashed, m)
            else
              var id, local := m.id.value, ColumnInt(m.id.value);
              if local !in db.items then saved == Saved(db, Committed, m)
              else
                var stored := db.items[local];
                var row := ItemRow(Over(m.filename, stored.filename), Over(m.duration, stored.duration),
                                   Over(m.description, stored.description), Over(m.playcount, stored.playcount));
                if ItemClashes(db.items, local, id, m.filename)
                   || (id != local && exists c :: c in db.children && c.1 == local)
                then saved == Saved(db, Violation, m)
                else saved == Saved(db.(items := (db.items - {local})[id := row]), Committed, m)
  {
    NothingSet(m);
    if m.id.Some? && ColumnInt(m.id.value) != -1 {
      WhereIdIs(m, newId);
      if ColumnInt(m.id.value) in db.items {
        ItemUpdateRoot(db, m, newId);
        var r := RootStep(db, Update, m, newId);
        if r.Done? {
          FinishItem(db, r.db, m, newId);
        }
      } else {
        assert RootStep(db, Update, m, newId) == Done(db);
        FinishItem(db, db, m, newId);
      }
    }
  }

  // ---- The rest ------------------------------------------------------------------------------

  /** A message in which no column is set makes a statement that cannot be prepared. */
  lemma NothingToSave(db: Database, cmd: Command, m: Message, newId: int)
    requires Supported(cmd, m)
    requires match m
             case PlaylistMessage(id, name, weight, _) => id.None? && name.None? && weight.None?
             case ItemMessage(_, _, _, _, _) => !AnySet(m)
             case LockMessage(lock) => lock.None?
    ensures Save(db, cmd, m, newId) == Saved(db, Crashed, m)
  {
    NothingSet(m);
  }

  /** Locking a name commits if there is a playlist of it, and, for an INSERT, no lock yet. */
  lemma SaveLock(db: Database, cmd: Command, name: string, newId: int)
    requires Integrity(db) && !cmd.Update?
    ensures Save(db, cmd, LockMessage(Some(name)), newId) ==
              if Named(db, name) && !(cmd.Insert? && name in db.locks)
              then Saved(db.(locks := db.locks + {name}), Committed, LockMessage(Some(name)))
              else Saved(db, Violation, LockMessage(Some(name)))
  {
    var m := LockMessage(Some(name));
    NothingSet(m);
    if !(cmd.Insert? && name in db.locks) {
      var rooted := db.(locks := db.locks + {name});
      assert RootStep(db, cmd, m, newId) == Done(rooted);
      FinishIs(db, rooted, m, newId);
      assert rooted.children + ChildRows(LocalId(m, newId), []) == rooted.children;
      assert rooted.(children := rooted.children) == rooted;
      assert forall other :: Named(rooted, other) <==> Named(db, other);
      assert LocksHeld(rooted) <==> Named(db, name);
    }
  }
}
