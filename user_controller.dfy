/**
 * The admin backend's /user endpoints: save, delete, batch delete and
 * update turn the service's outcome into a Result envelope, and the paged
 * listing builds its query wrapper from the non-empty search fields.
 */
module UserController {
  import opened Common
  import opened Strings
  import opened Store
  import opened Query
  import opened Ordering
  import opened Paging
  import opened ApiResult
  import opened UserService

  const SaveRefused: string := "操作失败"
  const IdRequired: string := "ID不能为空"
  const DeleteRefused: string := "删除失败"
  const IdsRequired: string := "ID列表不能为空"
  const BatchRefused: string := "批量删除失败"
  const UserIdRequired: string := "用户ID不能为空"
  const UpdateRefused: string := "修改失败"

  // ---------------------------------------------------------------------------
  // save, delete, deleteBatch, update

  /**
   * The envelope for a service call: `success()` for true, the endpoint's
   * own refusal for false, and the exception's message for an exception.
   */
  function Respond(r: Result<bool>, refused: string): (a: ApiResult<()>)
    ensures a.data.None?
  {
    match r
    case Ok(true) => SuccessEmpty()
    case Ok(false) => Error(ServerErrorCode, refused)
    case Err(m) => Error(ServerErrorCode, m)
  }

  /** A client reading the code sees success exactly when the service returned true. */
  lemma RespondSuccessIff(r: Result<bool>, refused: string)
    ensures IsSuccess(Respond(r, refused)) <==> r == Ok(true)
    ensures r.Err? ==> Respond(r, refused).msg == r.error
    ensures r == Ok(false) ==> Respond(r, refused).msg == refused
  {
    assert ServerErrorCode != SuccessCode by {
      assert ServerErrorCode[0] != SuccessCode[0];
    }
  }

  /** `save(user)`: the service's save, reported. */
  method Save(db: Db, form: UserForm, now: Time, rejected: bool, cause: string) returns (a: ApiResult<()>)
    requires db.Valid()
    modifies db
    ensures db.Valid()
    ensures IsSuccess(a) <==>
      SaveCheck(old(db.State()), form).None? && !rejected && (form.id.Some? || form.username.Some?)
    ensures IsSuccess(a) ==> a == SuccessEmpty() && db.State() == AfterSave(old(db.State()), form, now)
    ensures !IsSuccess(a) ==>
      a.code == ServerErrorCode && StartsWith(a.msg, OperationFailedPrefix) && db.State() == old(db.State())
  {
    var r := SaveUser(db, form, now, rejected, cause);
    RespondSuccessIff(r, SaveRefused);
    if r.Err? {
      var check := SaveCheck(old(db.State()), form);
      PrefixedStartsWith(OperationFailedPrefix, if check.Some? then check.value else cause);
    }
    a := Respond(r, SaveRefused);
  }

  /** `delete(id)`: a missing id is refused; otherwise `removeUserById` as written removes the user. */
  method Delete(db: Db, id: Option<UserId>, failAt: int, cause: string) returns (a: ApiResult<()>)
    requires db.Valid()
    modifies db
    ensures db.Valid()
    ensures id.None? ==> a == Error(ServerErrorCode, IdRequired) && db.State() == old(db.State())
    ensures id.Some? && 1 <= failAt <= 5 ==>
      a == Error(ServerErrorCode, DeleteFailedPrefix + cause) && db.State() == old(db.State())
    ensures id.Some? && !(1 <= failAt <= 5) ==>
      && db.State() == CascadeAsWritten(old(db.State()), id.value)
      && a == (if id.value in old(db.users) then SuccessEmpty() else Error(ServerErrorCode, DeleteRefused))
  {
    if id.None? {
      return Error(ServerErrorCode, IdRequired);
    }
    var r := RemoveUserById(db, id.value, failAt, cause);
    a := Respond(r, DeleteRefused);
  }

  /** `deleteBatch(ids)`: a missing or empty list is refused; otherwise the batch is all or nothing. */
  method DeleteBatch(db: Db, ids: Option<seq<UserId>>, failing: int, cause: string)
    returns (a: ApiResult<()>, ghost run: seq<Tables>)
    requires db.Valid()
    modifies db
    ensures db.Valid()
    ensures ids.None? || ids.value == [] ==> a == Error(ServerErrorCode, IdsRequired) && db.State() == old(db.State())
    ensures ids.Some? && ids.value != [] ==>
      && IsRun(run, ids.value) && run[0] == old(db.State())
      && (IsSuccess(a) <==> BatchSucceeds(run, ids.value) && !(0 <= failing < |ids.value|))
      && (IsSuccess(a) ==> a == SuccessEmpty() && db.State() == run[|ids.value|])
      && (!IsSuccess(a) ==>
            a.code == ServerErrorCode && StartsWith(a.msg, BatchFailedPrefix) && db.State() == old(db.State()))
  {
    run := [];
    if ids.None? || ids.value == [] {
      return Error(ServerErrorCode, IdsRequired), run;
    }
    var r;
    r, run := RemoveUserByIds(db, ids.value, failing, cause);
    RespondSuccessIff(r, BatchRefused);
    a := Respond(r, BatchRefused);
  }

  /** `update(user)`: a form without an id is refused; otherwise the service's update, reported. */
  method Update(db: Db, form: UserForm, rejected: bool, cause: string) returns (a: ApiResult<()>)
    requires db.Valid()
    modifies db
    ensures db.Valid()
    ensures form.id.None? ==> a == Error(ServerErrorCode, UserIdRequired) && db.State() == old(db.State())
    ensures form.id.Some? ==> (IsSuccess(a) <==> UpdateCheck(old(db.State()), form).None? && !rejected)
    ensures form.id.Some? && IsSuccess(a) ==>
      && a == SuccessEmpty()
      && db.State() == old(db.State()).(users := old(db.users)[form.id.value := Patched(old(db.users)[form.id.value], form)])
    ensures form.id.Some? && !IsSuccess(a) ==>
      a.code == ServerErrorCode && StartsWith(a.msg, UpdateFailedPrefix) && db.State() == old(db.State())
  {
    if form.id.None? {
      return Error(ServerErrorCode, UserIdRequired);
    }
    var r := UpdateUser(db, form, rejected, cause);
    RespondSuccessIff(r, UpdateRefused);
    if r.Err? {
      var check := UpdateCheck(old(db.State()), form);
      PrefixedStartsWith(UpdateFailedPrefix, if check.Some? then check.value else cause);
    }
    a := Respond(r, UpdateRefused);
  }

  // ---------------------------------------------------------------------------
  // findPage

  /** A users row with its primary key. */
  datatype UserRecord = UserRecord(id: UserId, row: UserRow)

  /** The user as the page serialises it: every column but the password, which the entity never writes out. */
  datatype UserView = UserView(
    id: UserId,
    username: string,
    nickname: Option<string>,
    phone: Option<string>,
    email: Option<string>,
    address: Option<string>,
    avatar: Option<string>,
    gender: Option<string>,
    age: Option<int>,
    isOnline: int,
    lastSeen: Option<Time>,
    createdAt: Time)

  function ViewOf(x: UserRecord): UserView
  {
    var r := x.row;
    UserView(x.id, r.username, r.nickname, r.phone, r.email, r.address, r.avatar, r.gender, r.age,
             r.isOnline, r.lastSeen, r.createdAt)
  }

  function Text(o: Option<string>): Value
  {
    if o.Some? then StrVal(o.value) else Null
  }

  /** The columns of a users row. */
  function UserColumn(x: UserRecord, column: string): Value
  {
    if column == "id" then IntVal(x.id)
    else if column == "username" then StrVal(x.row.username)
    else if column == "password" then Text(x.row.password)
    else if column == "nickname" then Text(x.row.nickname)
    else if column == "phone" then Text(x.row.phone)
    else if column == "email" then Text(x.row.email)
    else if column == "address" then Text(x.row.address)
    else if column == "avatar" then Text(x.row.avatar)
    else if column == "gender" then Text(x.row.gender)
    else if column == "age" then (if x.row.age.Some? then IntVal(x.row.age.value) else Null)
    else if column == "is_online" then IntVal(x.row.isOnline)
    else if column == "last_seen" then (if x.row.lastSeen.Some? then IntVal(x.row.lastSeen.value) else Null)
    else if column == "created_at" then IntVal(x.row.createdAt)
    else Null
  }

  /** The rows with ids in [lo, hi), in primary-key order. */
  function Records(users: map<UserId, UserRow>, lo: int, hi: int): (rs: seq<UserRecord>)
    ensures forall x :: x in rs <==> lo <= x.id < hi && x.id in users && x.row == users[x.id]
    ensures forall i, j :: 0 <= i < j < |rs| ==> rs[i].id < rs[j].id
    decreases hi - lo
  {
    if lo >= hi then []
    else
      var rest := Records(users, lo + 1, hi);
      if lo in users then [UserRecord(lo, users[lo])] + rest else rest
  }

  /** The records the conditions select, in the order given. */
  function RecordsWhere(rs: seq<UserRecord>, conds: seq<Condition>): (r: seq<UserRecord>)
    ensures forall x :: x in r <==> x in rs && Satisfies(conds, (c: string) => UserColumn(x, c))
    ensures NoDuplicates(rs) ==> NoDuplicates(r)
  {
    if rs == [] then []
    else
      var rest := RecordsWhere(rs[1..], conds);
      assert forall x :: x in rs <==> x == rs[0] || x in rs[1..];
      if Satisfies(conds, (c: string) => UserColumn(rs[0], c)) then
        assert NoDuplicates(rs) ==> rs[0] !in rs[1..];
        [rs[0]] + rest
      else rest
  }

  /** The sort key of ORDER BY column DESC on an integer column; only the first ORDER BY column is modelled. */
  function RecordKey(descending: seq<string>): UserRecord -> int
  {
    (x: UserRecord) =>
      if descending != [] && UserColumn(x, descending[0]).IntVal? then -UserColumn(x, descending[0]).i else 0
  }

  function Views(rs: seq<UserRecord>): (vs: seq<UserView>)
    ensures |vs| == |rs|
    ensures forall i :: 0 <= i < |rs| ==> vs[i] == ViewOf(rs[i])
  {
    if rs == [] then [] else [ViewOf(rs[0])] + Views(rs[1..])
  }

  /** The selected records of the users table, in the wrapper's order. */
  function Selected(t: Tables, conds: seq<Condition>, descending: seq<string>): seq<UserRecord>
  {
    SortBy(RecordsWhere(Records(t.users, 1, t.nextUserId), conds), RecordKey(descending))
  }

  /** `userService.page(page, queryWrapper)` on the users table, serialised without passwords. */
  function SelectUsers(t: Tables, conds: seq<Condition>, descending: seq<string>, pageNum: int, pageSize: int)
    : (p: Page<UserView>)
    ensures p.current == CurrentPage(pageNum) && p.size == pageSize
    ensures pageSize >= 0 ==> p.total == |Selected(t, conds, descending)|
    ensures pageSize < 0 ==> p.total == 0
    ensures forall v :: v in p.records ==> exists x :: x in Selected(t, conds, descending) && v == ViewOf(x)
  {
    var rows := Selected(t, conds, descending);
    var page := PageOf(rows, pageNum, pageSize);
    var vs := Views(page.records);
    assert forall v :: v in vs ==> exists x :: x in rows && v == ViewOf(x) by {
      forall v | v in vs ensures exists x :: x in rows && v == ViewOf(x) {
        var i :| 0 <= i < |vs| && vs[i] == v;
        assert page.records[i] in rows;
      }
    }
    Page(vs, page.total, page.current, page.size)
  }

  /** `like(column, q)` when the parameter is not empty, nothing otherwise. */
  function LikeIfGiven(column: string, q: string): seq<Condition>
  {
    if q != "" then [Condition.Like(column, q)] else []
  }

  /** The conditions `findPage` adds, in its order. */
  function UserConditions(username: string, nickname: string, address: string, phone: string, email: string)
    : seq<Condition>
  {
    LikeIfGiven("username", username) + LikeIfGiven("nickname", nickname) + LikeIfGiven("address", address)
    + LikeIfGiven("phone", phone) + LikeIfGiven("email", email)
  }

  const IdOrder: seq<string> := ["id"]

  /** A search field matches when it is empty, or when the column is set and contains it. */
  predicate FieldMatches(value: Option<string>, q: string)
  {
    q != "" ==> value.Some? && Contains(value.value, q)
  }

  /** What the search fields ask of a user row. */
  predicate Matches(row: UserRow, username: string, nickname: string, address: string, phone: string, email: string)
  {
    && FieldMatches(Some(row.username), username)
    && FieldMatches(row.nickname, nickname)
    && FieldMatches(row.address, address)
    && FieldMatches(row.phone, phone)
    && FieldMatches(row.email, email)
  }

  lemma LikeIfGivenMatches(x: UserRecord, column: string, value: Option<string>, q: string)
    requires UserColumn(x, column) == Text(value)
    ensures Satisfies(LikeIfGiven(column, q), (c: string) => UserColumn(x, c)) <==> FieldMatches(value, q)
  {
    if q != "" {
      assert LikeIfGiven(column, q) == [] + [Condition.Like(column, q)];
      SatisfiesAppend([], Condition.Like(column, q), (c: string) => UserColumn(x, c));
    }
  }

  /**
   * The wrapper's conditions select exactly the rows whose columns contain
   * every non-empty search field; a NULL column matches no search.
   */
  lemma {:induction false} UserConditionsMatch(x: UserRecord, username: string, nickname: string, address: string, phone: string, email: string)
    ensures Satisfies(UserConditions(username, nickname, address, phone, email), (c: string) => UserColumn(x, c))
        <==> Matches(x.row, username, nickname, address, phone, email)
  {
    var row := (c: string) => UserColumn(x, c);
    var a := LikeIfGiven("username", username);
    var b := LikeIfGiven("nickname", nickname);
    var c := LikeIfGiven("address", address);
    var d := LikeIfGiven("phone", phone);
    var e := LikeIfGiven("email", email);
    SatisfiesConcat(a + b + c + d, e, row);
    SatisfiesConcat(a + b + c, d, row);
    SatisfiesConcat(a + b, c, row);
    SatisfiesConcat(a, b, row);
    LikeIfGivenMatches(x, "username", Some(x.row.username), username);
    LikeIfGivenMatches(x, "nickname", x.row.nickname, nickname);
    LikeIfGivenMatches(x, "address", x.row.address, address);
    LikeIfGivenMatches(x, "phone", x.row.phone, phone);
    LikeIfGivenMatches(x, "email", x.row.email, email);
  }

  /** The records the listing is cut from, sorted by descending id. */
  function IdSorted(t: Tables, conds: seq<Condition>): seq<UserRecord>
  {
    SortBy(RecordsWhere(Records(t.users, 1, t.nextUserId), conds), RecordKey(IdOrder))
  }

  /** Every record of the sorted listing is a user row that meets the search. */
  lemma SortedRecordsMatch(t: Tables, username: string, nickname: string, address: string, phone: string, email: string, x: UserRecord)
    requires x in IdSorted(t, UserConditions(username, nickname, address, phone, email))
    ensures x.id in t.users && x.row == t.users[x.id]
    ensures Matches(x.row, username, nickname, address, phone, email)
  {
    var conds := UserConditions(username, nickname, address, phone, email);
    var selected := RecordsWhere(Records(t.users, 1, t.nextUserId), conds);
    SortByMembers(selected, RecordKey(IdOrder));
    UserConditionsMatch(x, username, nickname, address, phone, email);
  }

  /** The page's records are listed by strictly decreasing id. */
  lemma PageIdsDecrease(t: Tables, conds: seq<Condition>, pageNum: int, pageSize: int)
    ensures var w := Window(IdSorted(t, conds), pageNum, pageSize);
      forall i, j :: 0 <= i < j < |w| ==> w[i].id > w[j].id
  {
    var all := Records(t.users, 1, t.nextUserId);
    var selected := RecordsWhere(all, conds);
    var key := RecordKey(IdOrder);
    var rows := SortBy(selected, key);
    var w := Window(rows, pageNum, pageSize);
    assert NoDuplicates(all);
    SortByKeepsDistinct(selected, key);
    SortByMembers(selected, key);
    WindowSorted(rows, pageNum, pageSize, key);
    WindowDistinct(rows, pageNum, pageSize);
    forall i, j | 0 <= i < j < |w| ensures w[i].id > w[j].id {
      var x, y := w[i], w[j];
      assert key(x) <= key(y);
      assert x in rows && y in rows;
      assert x != y;
    }
  }

  /** With no page size, every user that meets the search is listed. */
  lemma AllMatchingListed(t: Tables, username: string, nickname: string, address: string, phone: string, email: string, u: UserId)
    requires Consistent(t)
    requires u in t.users && Matches(t.users[u], username, nickname, address, phone, email)
    ensures UserRecord(u, t.users[u]) in IdSorted(t, UserConditions(username, nickname, address, phone, email))
  {
    var conds := UserConditions(username, nickname, address, phone, email);
    var all := Records(t.users, 1, t.nextUserId);
    var selected := RecordsWhere(all, conds);
    var x := UserRecord(u, t.users[u]);
    UserConditionsMatch(x, username, nickname, address, phone, email);
    assert x in all;
    SortByMembers(selected, RecordKey(IdOrder));
  }

  /** The page is the window of the id-sorted records, serialised. */
  lemma PageRecords(t: Tables, conds: seq<Condition>, pageNum: int, pageSize: int)
    ensures SelectUsers(t, conds, IdOrder, pageNum, pageSize).records == Views(Window(IdSorted(t, conds), pageNum, pageSize))
  {
  }

  /** Every user listed matches the search and is shown as its own row. */
  lemma ListedUsersMatch(t: Tables, username: string, nickname: string, address: string, phone: string, email: string,
                         pageNum: int, pageSize: int, v: UserView)
    requires v in SelectUsers(t, UserConditions(username, nickname, address, phone, email), IdOrder, pageNum, pageSize).records
    ensures v.id in t.users && v == ViewOf(UserRecord(v.id, t.users[v.id]))
    ensures Matches(t.users[v.id], username, nickname, address, phone, email)
  {
    var conds := UserConditions(username, nickname, address, phone, email);
    var w := Window(IdSorted(t, conds), pageNum, pageSize);
    PageRecords(t, conds, pageNum, pageSize);
    var vs := Views(w);
    var i :| 0 <= i < |vs| && vs[i] == v;
    SortedRecordsMatch(t, username, nickname, address, phone, email, w[i]);
  }

  /** The listed ids strictly decrease. */
  lemma ListedIdsDecrease(t: Tables, conds: seq<Condition>, pageNum: int, pageSize: int)
    ensures var rs := SelectUsers(t, conds, IdOrder, pageNum, pageSize).records;
      forall i, j :: 0 <= i < j < |rs| ==> rs[i].id > rs[j].id
  {
    PageRecords(t, conds, pageNum, pageSize);
    PageIdsDecrease(t, conds, pageNum, pageSize);
  }

  /** With paging switched off by a negative size, every user that meets the search is on the page. */
  lemma UnpagedListsAll(t: Tables, username: string, nickname: string, address: string, phone: string, email: string,
                        pageNum: int, pageSize: int, u: UserId)
    requires Consistent(t) && pageSize < 0
    requires u in t.users && Matches(t.users[u], username, nickname, address, phone, email)
    ensures ViewOf(UserRecord(u, t.users[u]))
      in SelectUsers(t, UserConditions(username, nickname, address, phone, email), IdOrder, pageNum, pageSize).records
  {
    var conds := UserConditions(username, nickname, address, phone, email);
    var w := Window(IdSorted(t, conds), pageNum, pageSize);
    PageRecords(t, conds, pageNum, pageSize);
    AllMatchingListed(t, username, nickname, address, phone, email, u);
    var i :| 0 <= i < |w| && w[i] == UserRecord(u, t.users[u]);
    assert Views(w)[i] == ViewOf(w[i]);
  }

  /**
   * The listing under `orderByDesc("id")`: every user listed matches the
   * search and is shown as its own row without the password, the ids
   * strictly decrease. A page size of 0 lists nobody; a negative size
   * switches paging off and every matching user is listed.
   */
  lemma UserListingSpec(t: Tables, username: string, nickname: string, address: string, phone: string, email: string,
                        pageNum: int, pageSize: int)
    requires Consistent(t)
    ensures var p := SelectUsers(t, UserConditions(username, nickname, address, phone, email), IdOrder, pageNum, pageSize);
      && (forall v :: v in p.records ==>
            v.id in t.users && v == ViewOf(UserRecord(v.id, t.users[v.id]))
            && Matches(t.users[v.id], username, nickname, address, phone, email))
      && (forall i, j :: 0 <= i < j < |p.records| ==> p.records[i].id > p.records[j].id)
      && (pageSize == 0 ==> p.records == [])
      && (pageSize < 0 ==>
            forall u :: u in t.users && Matches(t.users[u], username, nickname, address, phone, email) ==>
              ViewOf(UserRecord(u, t.users[u])) in p.records)
  {
    var conds := UserConditions(username, nickname, address, phone, email);
    var p := SelectUsers(t, conds, IdOrder, pageNum, pageSize);
    forall v | v in p.records
      ensures v.id in t.users && v == ViewOf(UserRecord(v.id, t.users[v.id]))
      ensures Matches(t.users[v.id], username, nickname, address, phone, email)
    {
      ListedUsersMatch(t, username, nickname, address, phone, email, pageNum, pageSize, v);
    }
    ListedIdsDecrease(t, conds, pageNum, pageSize);
    if pageSize < 0 {
      forall u | u in t.users && Matches(t.users[u], username, nickname, address, phone, email)
        ensures ViewOf(UserRecord(u, t.users[u])) in p.records
      {
        UnpagedListsAll(t, username, nickname, address, phone, email, pageNum, pageSize, u);
      }
    }
  }

  /** The wrapper `findPage` builds: a like for each non-empty field, then the order by id. */
  method SearchWrapper(username: string, nickname: string, address: string, phone: string, email: string)
    returns (wrapper: QueryWrapper)
    ensures fresh(wrapper)
    ensures wrapper.conditions == UserConditions(username, nickname, address, phone, email)
    ensures wrapper.descending == IdOrder
  {
    wrapper := new QueryWrapper();
    if username != "" {
      wrapper.Like("username", username);
    }
    assert wrapper.conditions == LikeIfGiven("username", username);
    if nickname != "" {
      wrapper.Like("nickname", nickname);
    }
    ghost var upTo := LikeIfGiven("username", username) + LikeIfGiven("nickname", nickname);
    assert wrapper.conditions == upTo;
    if address != "" {
      wrapper.Like("address", address);
    }
    upTo := upTo + LikeIfGiven("address", address);
    assert wrapper.conditions == upTo;
    if phone != "" {
      wrapper.Like("phone", phone);
    }
    upTo := upTo + LikeIfGiven("phone", phone);
    assert wrapper.conditions == upTo;
    if email != "" {
      wrapper.Like("email", email);
    }
    upTo := upTo + LikeIfGiven("email", email);
    assert wrapper.conditions == upTo;
    wrapper.OrderByDesc("id");
    assert upTo == UserConditions(username, nickname, address, phone, email);
  }

  /**
   * `findPage(pageNum, pageSize, username, nickname, address, phone, email)`:
   * a like condition for each non-empty field, newest id first; a failing
   * query is reported with its message.
   */
  method FindPage(t: Tables, pageNum: int, pageSize: int, username: string, nickname: string, address: string,
                  phone: string, email: string, failure: Option<string>)
    returns (a: ApiResult<Page<UserView>>)
    ensures failure.Some? ==> a == Error(ServerErrorCode, failure.value)
    ensures failure.None? ==>
      a == Success(SelectUsers(t, UserConditions(username, nickname, address, phone, email), IdOrder, pageNum, pageSize))
  {
    var wrapper := SearchWrapper(username, nickname, address, phone, email);
    if failure.Some? {
      return Error(ServerErrorCode, failure.value);
    }
    a := Success(SelectUsers(t, wrapper.conditions, wrapper.descending, pageNum, pageSize));
  }
}
