// Saving a message: one transaction over the root row, its child rows and the deferred constraints.

module Store {
  import opened Options
  import opened Schema
  import opened Statements

  datatype Command = Insert | Replace | Update

  datatype Message =
    | PlaylistMessage(id: Option<int>, name: Option<string>, weight: Option<int>, items: seq<int>)
    | ItemMessage(id: Option<int>, filename: Option<string>, duration: Option<int>,
                  description: Option<string>, playcount: Option<int>)
    | LockMessage(lock: Option<string>)

  datatype Outcome = Committed | Violation | Crashed | Misuse

  // ---- Messages as field lists ---------------------------------------------------------------

  function IntField(name: string, v: Option<int>): seq<Field> {
    if v.Some? then [Singular(name, IntValue(v.value))] else []
  }

  function TextField(name: string, v: Option<string>): seq<Field> {
    if v.Some? then [Singular(name, TextValue(v.value))] else []
  }

  function ChildIds(m: Message): seq<int> {
    if m.PlaylistMessage? then m.items else []
  }

  function SingularFields(m: Message): seq<Field> {
    match m
    case PlaylistMessage(id, name, weight, _) =>
      IntField("PlaylistID", id) + TextField("name", name) + IntField("weight", weight)
    case ItemMessage(id, filename, duration, description, playcount) =>
      IntField("PlayableItemID", id) + TextField("filename", filename) + IntField("duration", duration)
      + TextField("description", description) + IntField("playcount", playcount)
    case LockMessage(lock) => TextField("name", lock)
  }

  /** The fields of `m` that are set, by field number. */
  function ListFields(m: Message): seq<Field> {
    SingularFields(m) + if ChildIds(m) == [] then [] else [Repeated("PlayableItemID", ChildIds(m))]
  }

  predicate Plain(fields: seq<Field>) {
    AllSingular(fields) && HasValues(fields)
  }

  lemma PlainConcat(a: seq<Field>, b: seq<Field>)
    requires Plain(a) && Plain(b)
    ensures Plain(a + b)
  {
  }

  lemma SingularFieldsArePlain(m: Message)
    ensures Plain(SingularFields(m))
  {
    match m {
      case PlaylistMessage(id, name, weight, _) =>
        PlainConcat(IntField("PlaylistID", id), TextField("name", name));
        PlainConcat(IntField("PlaylistID", id) + TextField("name", name), IntField("weight", weight));
      case ItemMessage(id, filename, duration, description, playcount) =>
        var a := IntField("PlayableItemID", id) + TextField("filename", filename);
        PlainConcat(IntField("PlayableItemID", id), TextField("filename", filename));
        PlainConcat(a, IntField("duration", duration));
        PlainConcat(a + IntField("duration", duration), TextField("description", description));
        var b := a + IntField("duration", duration) + TextField("description", description);
        PlainConcat(b, IntField("playcount", playcount));
      case LockMessage(_) =>
    }
  }

  lemma OneRepeatedLast(plain: seq<Field>, last: seq<Field>)
    requires Plain(plain) && (last == [] || (|last| == 1 && last[0].Repeated?))
    ensures HasValues(plain + last) && SingularFirst(plain + last)
    ensures AllSingular(plain + last) <==> last == []
  {
    assert last != [] ==> (plain + last)[|plain|] == last[0];
  }

  /** Every stored kind of message is bound correctly by INSERT and REPLACE, and by UPDATE unless it has children. */
  lemma StoredKindsAreAligned(m: Message)
    ensures HasValues(ListFields(m)) && SingularFirst(ListFields(m))
    ensures AllSingular(ListFields(m)) <==> ChildIds(m) == []
  {
    SingularFieldsArePlain(m);
    OneRepeatedLast(SingularFields(m), if ChildIds(m) == [] then [] else [Repeated("PlayableItemID", ChildIds(m))]);
  }

  // ---- The root statement --------------------------------------------------------------------

  datatype Root = Done(db: Database) | Conflict | Fatal

  /** The statement took effect, if that leaves no child row without its parents. */
  function Checked(db: Database): Root {
    if ParentsExist(db) then Done(db) else Conflict
  }

  predicate NameTaken(rows: map<int, PlaylistRow>, id: int, name: Option<string>) {
    exists p :: p in rows && p != id && name.Some? && rows[p].name == name
  }

  predicate FileTaken(rows: Library, id: int, filename: Option<string>) {
    exists p :: p in rows && p != id && filename.Some? && rows[p].filename == filename
  }

  /** The id of the row a message goes to; `newId` is what the database assigns when none is set. */
  function RowId(m: Message, newId: int): int {
    match m
    case PlaylistMessage(id, _, _, _) => if id.Some? then id.value else newId
    case ItemMessage(id, _, _, _, _) => if id.Some? then id.value else newId
    case LockMessage(_) => 0
  }

  /** The store keeps the id in a 32-bit integer. */
  function LocalId(m: Message, newId: int): int {
    ColumnInt(RowId(m, newId))
  }

  /** The message as the save leaves it: an id that was not set is filled in, as is one that reads as -1. */
  function WithId(m: Message, newId: int): Message {
    var local := LocalId(m, newId);
    match m
    case PlaylistMessage(id, name, weight, items) =>
      if id.None? || local == -1 then PlaylistMessage(Some(local), name, weight, items) else m
    case ItemMessage(id, filename, duration, description, playcount) =>
      if id.None? || local == -1 then ItemMessage(Some(local), filename, duration, description, playcount) else m
    case LockMessage(_) => m
  }

  /**
   * What an UPDATE compares its id column with: the parameter after the columns, when the kept id is bound
   * to the number after all set fields.
   */
  function WhereValue(m: Message, newId: int): Value {
    var fields := ListFields(m);
    Parameter(Bound(fields)[|fields| + 1 := IntValue(LocalId(m, newId))], |Columns(fields)| + 1)
  }

  /** The id an UPDATE selects; a comparison with NULL selects none. */
  function WhereId(m: Message, newId: int): Option<int> {
    match WhereValue(m, newId)
    case IntValue(i) => Some(i)
    case _ => None
  }

  lemma WhereValueIs(m: Message, newId: int)
    ensures WhereValue(m, newId) == if ChildIds(m) == [] then IntValue(LocalId(m, newId)) else Null
  {
    StoredKindsAreAligned(m);
    WhereSelects(ListFields(m), IntValue(LocalId(m, newId)));
  }

  /** An UPDATE selects by the kept id exactly if the message lists no children. */
  lemma WhereIdIs(m: Message, newId: int)
    ensures WhereId(m, newId) == if ChildIds(m) == [] then Some(LocalId(m, newId)) else None
  {
    WhereValueIs(m, newId);
  }

  function Merge<T>(given: Option<T>, stored: Option<T>): Option<T> {
    if given.Some? then given else stored
  }

  function PutPlaylist(rows: map<int, PlaylistRow>, id: int, m: Message): map<int, PlaylistRow>
    requires m.PlaylistMessage?
  {
    (map p | p in rows && p != id && !(m.name.Some? && rows[p].name == m.name) :: rows[p])
      [id := PlaylistRow(m.name, m.weight)]
  }

  function PutItem(rows: Library, id: int, m: Message): Library
    requires m.ItemMessage?
  {
    (map p | p in rows && p != id && !(m.filename.Some? && rows[p].filename == m.filename) :: rows[p])
      [id := ItemRow(m.filename, m.duration, m.description, m.playcount)]
  }

  function PlaylistRoot(db: Database, cmd: Command, m: Message, newId: int): Root
    requires m.PlaylistMessage?
  {
    var id := RowId(m, newId);
    match cmd
    case Insert =>
      if id in db.playlists || NameTaken(db.playlists, id, m.name) then Conflict
      else Checked(db.(playlists := db.playlists[id := PlaylistRow(m.name, m.weight)]))
    case Replace => Checked(db.(playlists := PutPlaylist(db.playlists, id, m)))
    case Update =>
      var found := WhereId(m, newId);
      if found.None? || found.value !in db.playlists then Done(db)
      else
        var rest, row := db.playlists - {found.value}, db.playlists[found.value];
        if id in rest || NameTaken(rest, id, m.name) then Conflict
        else Checked(db.(playlists := rest[id := PlaylistRow(Merge(m.name, row.name), Merge(m.weight, row.weight))]))
  }

  function ItemRoot(db: Database, cmd: Command, m: Message, newId: int): Root
    requires m.ItemMessage?
  {
    var id := RowId(m, newId);
    match cmd
    case Insert =>
      if id in db.items || FileTaken(db.items, id, m.filename) then Conflict
      else Checked(db.(items := db.items[id := ItemRow(m.filename, m.duration, m.description, m.playcount)]))
    case Replace => Checked(db.(items := PutItem(db.items, id, m)))
    case Update =>
      var found := WhereId(m, newId);
      if found.None? || found.value !in db.items then Done(db)
      else
        var rest, row := db.items - {found.value}, db.items[found.value];
        if id in rest || FileTaken(rest, id, m.filename) then Conflict
        else Checked(db.(items := rest[id := ItemRow(
          Merge(m.filename, row.filename), Merge(m.duration, row.duration),
          Merge(m.description, row.description), Merge(m.playcount, row.playcount))]))
  }

  /** A command the store can be given: nobody updates a lock, which has no id. */
  predicate Supported(cmd: Command, m: Message) {
    cmd.Update? ==> !m.LockMessage?
  }

  function RootStep(db: Database, cmd: Command, m: Message, newId: int): Root
    requires Supported(cmd, m)
  {
    if SingularFields(m) == [] then Fatal
    else if cmd.Update? && (m.id.None? || LocalId(m, newId) == -1) then Fatal
    else match m
      case PlaylistMessage(_, _, _, _) => PlaylistRoot(db, cmd, m, newId)
      case ItemMessage(_, _, _, _, _) => ItemRoot(db, cmd, m, newId)
      case LockMessage(lock) =>
        if cmd.Insert? && lock.value in db.locks then Conflict else Done(db.(locks := db.locks + {lock.value}))
  }

  // ---- The whole transaction -----------------------------------------------------------------

  /** Adding child rows one at a time; None once a foreign key fails. */
  function AddChildren(db: Database, local: int, items: seq<int>): Option<Database> {
    if items == [] then Some(db)
    else
      var n := |items| - 1;
      match AddChildren(db, local, items[..n])
      case None => None
      case Some(d) =>
        if local in d.playlists && items[n] in d.items then Some(d.(children := d.children + {(local, items[n])}))
        else None
  }

  datatype Saved = Saved(db: Database, outcome: Outcome, message: Message)

  /** The rest of the transaction after the root statement: the child rows, and the deferred constraints. */
  function Finish(before: Database, rooted: Database, m: Message, newId: int): Saved {
    match AddChildren(rooted, LocalId(m, newId), ChildIds(m))
    case None => Saved(before, Violation, WithId(m, newId))
    case Some(full) =>
      if LocksHeld(full) then Saved(full, Committed, WithId(m, newId))
      else Saved(before, Violation, WithId(m, newId))
  }

  function Save(db: Database, cmd: Command, m: Message, newId: int): Saved
    requires Supported(cmd, m)
  {
    match RootStep(db, cmd, m, newId)
    case Fatal => Saved(db, Crashed, m)
    case Conflict => Saved(db, Violation, m)
    case Done(rooted) => Finish(db, rooted, m, newId)
  }

  class MessageStore {
    var db: Database
    var neverSave: bool

    constructor (db: Database)
      ensures this.db == db && !neverSave
    {
      this.db := db;
      this.neverSave := false;
    }

    method NeverSave()
      modifies this
      ensures neverSave && db == old(db)
    {
      neverSave := true;
    }

    /** Save `m` in a transaction; `out` is the message as it is left, with the id it was given. */
    method InsertOrReplace(cmd: Command, m: Message, newId: int) returns (outcome: Outcome, out: Message)
      requires Supported(cmd, m)
      modifies `db
      ensures old(neverSave) ==> outcome == Misuse && out == m && db == old(db)
      ensures !old(neverSave) ==> Saved(db, outcome, out) == Save(old(db), cmd, m, newId)
      ensures outcome != Committed ==> db == old(db)
    {
      out := m;
      if neverSave {
        return Misuse, out;
      }
      var before := db;
      match RootStep(db, cmd, m, newId) {
        case Fatal => return Crashed, out;
        case Conflict => return Violation, out;
        case Done(rooted) => db := rooted;
      }
      outcome, out := AddChildrenAndCommit(before, m, newId);
    }

    /** Add the child rows and commit, or roll back to `before`. */
    method AddChildrenAndCommit(before: Database, m: Message, newId: int) returns (outcome: Outcome, out: Message)
      modifies `db
      ensures Saved(db, outcome, out) == Finish(before, old(db), m, newId)
    {
      out := WithId(m, newId);
      var local, items := LocalId(m, newId), ChildIds(m);
      for k := 0 to |items|
        invariant AddChildren(old(db), local, items[..k]) == Some(db)
      {
        assert items[..k + 1][..k] == items[..k];
        if local !in db.playlists || items[k] !in db.items {
          FailsOnceFailed(old(db), local, items, k + 1);
          db := before;
          return Violation, out;
        }
        db := db.(children := db.children + {(local, items[k])});
      }
      assert items[..|items|] == items;
      if !LocksHeld(db) {
        db := before;
        return Violation, out;
      }
      return Committed, out;
    }
  }

  lemma {:induction false} FailsOnceFailed(db: Database, local: int, items: seq<int>, k: nat)
    requires k <= |items| && AddChildren(db, local, items[..k]).None?
    ensures AddChildren(db, local, items).None?
    decreases |items|
  {
    if k < |items| {
      var n := |items| - 1;
      assert items[..n][..k] == items[..k];
      FailsOnceFailed(db, local, items[..n], k);
    } else {
      assert items[..k] == items;
    }
  }

  // ---- Integrity -----------------------------------------------------------------------------

  /** The playlist and all the items exist, or nothing is listed. */
  predicate CanBeParents(db: Database, local: int, items: seq<int>) {
    (items != [] ==> local in db.playlists) && forall i :: i in items ==> i in db.items
  }

  function ChildRows(local: int, items: seq<int>): set<(int, int)> {
    set i | i in items :: (local, i)
  }

  lemma ChildRowIn(local: int, items: seq<int>, p: int, i: int)
    ensures (p, i) in ChildRows(local, items) <==> p == local && i in items
  {
  }

  lemma ChildRowsSnoc(local: int, items: seq<int>, x: int)
    ensures ChildRows(local, items + [x]) == ChildRows(local, items) + {(local, x)}
  {
  }

  lemma {:induction false} AddChildrenIs(db: Database, local: int, items: seq<int>)
    ensures var d := AddChildren(db, local, items);
            && (d.Some? <==> CanBeParents(db, local, items))
            && (d.Some? ==> d.value == db.(children := db.children + ChildRows(local, items)))
  {
    if items == [] {
      assert db.children + ChildRows(local, []) == db.children;
    } else {
      var n := |items| - 1;
      AddChildrenIs(db, local, items[..n]);
      assert items == items[..n] + [items[n]];
      ChildRowsSnoc(local, items[..n], items[n]);
      var before := db.children + ChildRows(local, items[..n]);
      assert db.children + ChildRows(local, items) == before + {(local, items[n])};
    }
  }

  lemma PlaylistRootKeeps(db: Database, cmd: Command, m: Message, newId: int)
    requires Integrity(db) && m.PlaylistMessage?
    ensures var r := PlaylistRoot(db, cmd, m, newId);
            r.Done? ==> UniqueNames(r.db.playlists) && ParentsExist(r.db) && r.db == db.(playlists := r.db.playlists)
  {
  }

  lemma ItemRootKeeps(db: Database, cmd: Command, m: Message, newId: int)
    requires Integrity(db) && m.ItemMessage?
    ensures var r := ItemRoot(db, cmd, m, newId);
            r.Done? ==> UniqueFiles(r.db.items) && ParentsExist(r.db) && r.db == db.(items := r.db.items)
  {
  }

  /** The root statement keeps the indexes and the immediate foreign keys, and never removes a lock. */
  lemma RootKeeps(db: Database, cmd: Command, m: Message, newId: int)
    requires Supported(cmd, m) && Integrity(db)
    ensures var r := RootStep(db, cmd, m, newId);
            r.Done? ==> UniqueNames(r.db.playlists) && UniqueFiles(r.db.items) && ParentsExist(r.db)
                        && db.locks <= r.db.locks
  {
    match m {
      case PlaylistMessage(_, _, _, _) => PlaylistRootKeeps(db, cmd, m, newId);
      case ItemMessage(_, _, _, _, _) => ItemRootKeeps(db, cmd, m, newId);
      case LockMessage(_) =>
    }
  }

  /** Every save keeps the database's integrity and every lock. */
  lemma SaveKeepsIntegrity(db: Database, cmd: Command, m: Message, newId: int)
    requires Supported(cmd, m) && Integrity(db)
    ensures Integrity(Save(db, cmd, m, newId).db) && db.locks <= Save(db, cmd, m, newId).db.locks
  {
    RootKeeps(db, cmd, m, newId);
    var r := RootStep(db, cmd, m, newId);
    if r.Done? {
      AddChildrenIs(r.db, LocalId(m, newId), ChildIds(m));
    }
  }

  datatype Request = Request(cmd: Command, message: Message, newId: int)

  function SaveAll(db: Database, requests: seq<Request>): Database
    requires forall q :: q in requests ==> Supported(q.cmd, q.message)
  {
    if requests == [] then db
    else
      var n := |requests| - 1;
      var q := requests[n];
      assert q in requests;
      Save(SaveAll(db, requests[..n]), q.cmd, q.message, q.newId).db
  }

  /**
   * Over any run of saves the database keeps its integrity, and a locked playlist stays: whatever is
   * inserted, replaced, renamed or refused, a playlist of that name exists.
   */
  lemma {:induction false} LockedPlaylistSurvives(db: Database, requests: seq<Request>)
    requires Integrity(db) && forall q :: q in requests ==> Supported(q.cmd, q.message)
    ensures Integrity(SaveAll(db, requests))
    ensures var after := SaveAll(db, requests);
            forall name :: name in db.locks ==> name in after.locks && Named(after, name)
  {
    if requests != [] {
      var n := |requests| - 1;
      var q := requests[n];
      assert q in requests;
      LockedPlaylistSurvives(db, requests[..n]);
      SaveKeepsIntegrity(SaveAll(db, requests[..n]), q.cmd, q.message, q.newId);
    }
  }

  /** Locking a playlist by name commits exactly if a playlist of that name exists. */
  lemma LockByName(db: Database, name: string, newId: int)
    requires Integrity(db)
    ensures Save(db, Replace, LockMessage(Some(name)), newId).outcome == Committed <==> Named(db, name)
  {
  }

  // ---- What an UPDATE with children does -----------------------------------------------------

  lemma RootWithChildren(db: Database, m: Message, newId: int)
    requires ChildIds(m) != []
    ensures RootStep(db, Update, m, newId).Fatal? || RootStep(db, Update, m, newId) == Done(db)
  {
    WhereIdIs(m, newId);
  }

  /**
   * An UPDATE of a message that lists children compares its id column with NULL: it changes no playlist,
   * item or lock, and all it can do is to add children.
   */
  lemma UpdateWithChildrenFindsNoRow(db: Database, m: Message, newId: int)
    requires ChildIds(m) != []
    ensures Parameter(Bound(ListFields(m)), |Columns(ListFields(m))| + 1) == Null && WhereId(m, newId).None?
    ensures var after := Save(db, Update, m, newId).db;
            after == db.(children := after.children)
            && (after == db || after.children == db.children + ChildRows(LocalId(m, newId), ChildIds(m)))
  {
    WhereIdIs(m, newId);
    StoredKindsAreAligned(m);
    WhereIsNull(ListFields(m));
    RootWithChildren(db, m, newId);
    if RootStep(db, Update, m, newId).Done? {
      AddChildrenIs(db, LocalId(m, newId), ChildIds(m));
    }
  }

  // ---- What a REPLACE of a playlist commits --------------------------------------------------

  /** The database a playlist REPLACE aims at: its row put in, rows that clash removed, its children added. */
  function Target(db: Database, m: Message, newId: int): Database
    requires m.PlaylistMessage?
  {
    db.(playlists := PutPlaylist(db.playlists, RowId(m, newId), m),
        children := db.children + ChildRows(LocalId(m, newId), m.items))
  }

  /**
   * The constraints checked at three different points amount to one: a REPLACE commits if and only if the
   * database it aims at has integrity, and then that is the database.
   */
  lemma ReplaceCommitsTarget(db: Database, m: Message, newId: int)
    requires Integrity(db) && m.PlaylistMessage? && SingularFields(m) != []
    ensures var saved, target := Save(db, Replace, m, newId), Target(db, m, newId);
            && (saved.outcome == Committed <==> Integrity(target))
            && (saved.outcome == Committed ==> saved.db == target)
  {
    var rooted := db.(playlists := PutPlaylist(db.playlists, RowId(m, newId), m));
    PlaylistRootKeeps(db, Replace, m, newId);
    AddChildrenIs(rooted, LocalId(m, newId), m.items);
    AddedParents(rooted, LocalId(m, newId), m.items);
    assert forall name :: Named(Target(db, m, newId), name) <==> Named(rooted, name);
  }

  lemma AddedParents(db: Database, local: int, items: seq<int>)
    ensures ParentsExist(db.(children := db.children + ChildRows(local, items)))
            <==> ParentsExist(db) && CanBeParents(db, local, items)
  {
    var full := db.(children := db.children + ChildRows(local, items));
    if ParentsExist(full) {
      forall c | c in db.children ensures c.0 in db.playlists && c.1 in db.items {
        assert c in full.children;
      }
      forall i | i in items ensures local in db.playlists && i in db.items {
        var c := (local, i);
        assert c in full.children;
      }
      assert items != [] ==> items[0] in items;
    }
    if ParentsExist(db) && CanBeParents(db, local, items) {
      forall c | c in full.children ensures c.0 in db.playlists && c.1 in db.items {
        ChildRowIn(local, items, c.0, c.1);
        assert c == (c.0, c.1);
      }
    }
  }

  function Listed(items: seq<int>): set<int> {
    set i | i in items
  }

  lemma AbsorbsIff(a: set<int>, b: set<int>)
    ensures a + b == b <==> a <= b
  {
  }

  function ChildrenOf(db: Database, id: int): set<int> {
    set c | c in db.children && c.0 == id :: c.1
  }

  /**
   * A committed REPLACE adds the listed children to those of the id it keeps, and removes none of anybody's;
   * so that id ends up with what was listed if and only if all its stored children are listed again.
   */
  lemma ReplaceOnlyAddsChildren(db: Database, m: Message, newId: int, p: int)
    requires Integrity(db) && m.PlaylistMessage?
    requires Save(db, Replace, m, newId).outcome == Committed
    ensures var after, mine, listed := Save(db, Replace, m, newId).db, p == LocalId(m, newId), Listed(m.items);
            && ChildrenOf(after, p) == ChildrenOf(db, p) + (if mine then listed else {})
            && (mine ==> (ChildrenOf(after, p) == listed <==> ChildrenOf(db, p) <= listed))
  {
    ReplaceCommitsTarget(db, m, newId);
    var after, local, listed := Save(db, Replace, m, newId).db, LocalId(m, newId), Listed(m.items);
    var added := if p == local then listed else {};
    forall i ensures i in ChildrenOf(after, p) <==> i in ChildrenOf(db, p) + added {
      ChildIn(after, p, i);
      ChildIn(db, p, i);
      ChildRowIn(local, m.items, p, i);
    }
    assert ChildrenOf(after, p) == ChildrenOf(db, p) + added;
    AbsorbsIff(ChildrenOf(db, p), listed);
  }

  lemma ChildIn(db: Database, id: int, i: int)
    ensures i in ChildrenOf(db, id) <==> (id, i) in db.children
  {
  }
}
