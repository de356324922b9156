/**
 * Presence: the is_online and last_seen columns of a user row, written
 * by setOnline / setOffline and read by getStatus. CURRENT_TIMESTAMP is
 * the `now` parameter.
 */
module UserStatus {
  import opened Common
  import opened Store

  /** The users table after `UPDATE users SET is_online = online, last_seen = now WHERE id = u`. */
  function WithPresence(users: map<UserId, UserRow>, u: UserId, online: int, now: Time)
    : (r: map<UserId, UserRow>)
    ensures r.Keys == users.Keys
  {
    if u in users then users[u := users[u].(isOnline := online, lastSeen := Some(now))] else users
  }

  method SetOnline(db: Db, u: UserId, now: Time)
    requires db.Valid()
    modifies db
    ensures db.Valid()
    ensures db.State() == old(db.State()).(users := WithPresence(old(db.users), u, 1, now))
  {
    if u in db.users {
      db.users := db.users[u := db.users[u].(isOnline := 1, lastSeen := Some(now))];
    }
  }

  method SetOffline(db: Db, u: UserId, now: Time)
    requires db.Valid()
    modifies db
    ensures db.Valid()
    ensures db.State() == old(db.State()).(users := WithPresence(old(db.users), u, 0, now))
  {
    if u in db.users {
      db.users := db.users[u := db.users[u].(isOnline := 0, lastSeen := Some(now))];
    }
  }

  datatype Status = Status(isOnline: int, lastSeen: Option<Time>)

  /** `getStatus(u)`: the presence columns of u, or nothing for an unknown id. */
  function GetStatus(t: Tables, u: UserId): (r: Option<Status>)
    ensures r.Some? <==> u in t.users
    ensures r.Some? ==> r.value.isOnline == t.users[u].isOnline && r.value.lastSeen == t.users[u].lastSeen
  {
    if u in t.users then Some(Status(t.users[u].isOnline, t.users[u].lastSeen)) else None
  }

  /**
   * After a presence update of u, getStatus(u) reports the new flag and
   * time; every other user's status, and every other column, is as before;
   * an unknown u changes nothing.
   */
  lemma StatusAfterUpdate(t: Tables, u: UserId, online: int, now: Time, v: UserId)
    ensures var t' := t.(users := WithPresence(t.users, u, online, now));
      GetStatus(t', v) == (if v == u && u in t.users then Some(Status(online, Some(now))) else GetStatus(t, v))
    ensures var t' := t.(users := WithPresence(t.users, u, online, now));
      v in t.users ==> t'.users[v].username == t.users[v].username && t'.users[v].nickname == t.users[v].nickname
  {
  }

  /** A presence update keeps the store's invariants. */
  lemma PresenceKeepsConsistent(t: Tables, u: UserId, online: int, now: Time)
    requires Consistent(t)
    ensures Consistent(t.(users := WithPresence(t.users, u, online, now)))
  {
  }

  /** Going online then offline leaves the user offline with the later time. */
  lemma OnlineThenOffline(users: map<UserId, UserRow>, u: UserId, t1: Time, t2: Time)
    requires u in users
    ensures WithPresence(WithPresence(users, u, 1, t1), u, 0, t2)[u] == users[u].(isOnline := 0, lastSeen := Some(t2))
  {
  }
}
