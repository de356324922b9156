/**
 * Per-user settings: a get-or-create lookup (getSettings and
 * createDefaultSettings call each other) and an update of the given
 * columns. A row is the map of its columns that differ from the column
 * defaults, so the default row is the empty map.
 */
module UserSettings {
  import opened Common
  import opened Store

  const DefaultSettings: Settings := map[]

  /**
   * `getSettings(u)`: the stored row, or else the one createDefaultSettings
   * inserts. `insertFails` stands for a store error on that INSERT.
   */
  method GetSettings(db: Db, u: UserId, insertFails: bool) returns (r: Result<Settings>)
    requires db.Valid()
    modifies db
    ensures db.Valid()
    ensures u in old(db.settings) ==> r == Ok(old(db.settings)[u]) && db.State() == old(db.State())
    ensures u !in old(db.settings) ==> (r.Ok? <==> !insertFails)
    ensures u !in old(db.settings) && r.Ok? ==>
      r.value == DefaultSettings && db.State() == old(db.State()).(settings := old(db.settings)[u := DefaultSettings])
    ensures r.Err? ==> db.State() == old(db.State())
    decreases if u in db.settings then 0 else 2
  {
    if u in db.settings {
      return Ok(db.settings[u]);
    }
    r := CreateDefaultSettings(db, u, insertFails);
  }

  /**
   * `createDefaultSettings(u)`: INSERT INTO user_settings (user_id), then
   * getSettings(u). The insert fails on an existing row (user_id is the
   * key) or on a store error.
   */
  method CreateDefaultSettings(db: Db, u: UserId, insertFails: bool) returns (r: Result<Settings>)
    requires db.Valid()
    modifies db
    ensures db.Valid()
    ensures r.Ok? <==> u !in old(db.settings) && !insertFails
    ensures r.Ok? ==>
      r.value == DefaultSettings && db.State() == old(db.State()).(settings := old(db.settings)[u := DefaultSettings])
    ensures u in old(db.settings) ==> r == Err(DupEntryCode)
    ensures r.Err? ==> db.State() == old(db.State())
    decreases 1
  {
    if u in db.settings {
      return Err(DupEntryCode);
    }
    if insertFails {
      return Err("store failure");
    }
    db.settings := db.settings[u := DefaultSettings];
    r := GetSettings(db, u, insertFails);
  }

  /** The row after `UPDATE user_settings SET k = v, ... WHERE user_id = u`. */
  function Updated(row: Settings, fields: map<string, string>): (r: Settings)
    ensures r.Keys == row.Keys + fields.Keys
    ensures forall k :: k in fields ==> r[k] == fields[k]
    ensures forall k :: k in row && k !in fields ==> r[k] == row[k]
  {
    row + fields
  }

  /**
   * `updateSettings(u, fields)`: an UPDATE of the given columns, then
   * getSettings(u). The statement is malformed when fields is empty and
   * fails when a key is not a column of user_settings (`columns`); a user
   * without a row gets no update, and getSettings then creates the
   * default row.
   */
  method UpdateSettings(db: Db, u: UserId, fields: map<string, string>, columns: set<string>, insertFails: bool)
    returns (r: Result<Settings>)
    requires db.Valid()
    modifies db
    ensures db.Valid()
    ensures fields == map[] || !(fields.Keys <= columns) ==> r.Err? && db.State() == old(db.State())
    ensures fields != map[] && fields.Keys <= columns && u in old(db.settings) ==>
      r == Ok(Updated(old(db.settings)[u], fields))
      && db.State() == old(db.State()).(settings := old(db.settings)[u := Updated(old(db.settings)[u], fields)])
    ensures fields != map[] && fields.Keys <= columns && u !in old(db.settings) ==>
      (r.Ok? <==> !insertFails)
      && (r.Ok? ==> r.value == DefaultSettings)
  {
    if fields == map[] {
      return Err("syntax error in UPDATE");
    }
    if !(fields.Keys <= columns) {
      return Err("unknown column");
    }
    if u in db.settings {
      db.settings := db.settings[u := Updated(db.settings[u], fields)];
    }
    r := GetSettings(db, u, insertFails);
  }

  /** An update is read back exactly: every given column holds its new value. */
  lemma UpdateReadBack(row: Settings, fields: map<string, string>, k: string)
    ensures k in fields ==> Updated(row, fields)[k] == fields[k]
    ensures k !in fields ==> (k in Updated(row, fields) <==> k in row)
  {
  }
}
