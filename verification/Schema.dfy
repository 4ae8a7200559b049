// The rows of the tables the store keeps, and how a stored integer comes back from a query.

module Schema {
  import opened Options

  datatype PlaylistRow = PlaylistRow(name: Option<string>, weight: Option<int>)

  datatype ItemRow = ItemRow(
    filename: Option<string>, duration: Option<int>, description: Option<string>, playcount: Option<int>)

  type Library = map<int, ItemRow>

  /** The tables a save can touch; playlists and items by id, `children` the rows of Playlist_PlayableItemID. */
  datatype Database = Database(
    playlists: map<int, PlaylistRow>, items: Library, children: set<(int, int)>, locks: set<string>)

  // ---- What the declared indexes and foreign keys demand --------------------------------------

  predicate UniqueNames(rows: map<int, PlaylistRow>) {
    forall p, q :: p in rows && q in rows && p != q && rows[p].name.Some? ==> rows[p].name != rows[q].name
  }

  predicate UniqueFiles(rows: Library) {
    forall p, q :: p in rows && q in rows && p != q && rows[p].filename.Some? ==> rows[p].filename != rows[q].filename
  }

  /** Checked at the end of every statement. */
  predicate ParentsExist(db: Database) {
    forall c :: c in db.children ==> c.0 in db.playlists && c.1 in db.items
  }

  predicate Named(db: Database, name: string) {
    exists p :: p in db.playlists && db.playlists[p].name == Some(name)
  }

  /** Deferred: checked at COMMIT. */
  predicate LocksHeld(db: Database) {
    forall name :: name in db.locks ==> Named(db, name)
  }

  predicate Integrity(db: Database) {
    UniqueNames(db.playlists) && UniqueFiles(db.items) && ParentsExist(db) && LocksHeld(db)
  }

  // ---- Stored integers -----------------------------------------------------------------------

  const INT_SPAN := 0x1_0000_0000
  const INT_HALF := 0x8000_0000

  predicate Fits32(v: int) {
    -INT_HALF <= v < INT_HALF
  }

  /** A stored integer read as a 32-bit column: the low 32 bits, signed. */
  function ColumnInt(v: int): (r: int)
    ensures Fits32(r)
    ensures r == v <==> Fits32(v)
  {
    (v + INT_HALF) % INT_SPAN - INT_HALF
  }

  /** It is the one 32-bit integer that differs from what is stored by a multiple of 2^32. */
  lemma ColumnIntIs(v: int, r: int)
    ensures ColumnInt(v) == r <==> -2147483648 <= r <= 2147483647 && (v - r) % 4294967296 == 0
  {
  }

  /** An integer column that may be NULL, which reads as 0. */
  function ColumnIntOrZero(v: Option<int>): int {
    if v.Some? then ColumnInt(v.value) else 0
  }

  function ColumnText(v: Option<string>): string {
    if v.Some? then v.value else ""
  }
}
