/**
 * The admin backend's MessageService: one page of messages selected by a
 * query wrapper, each record turned into an entry that carries its
 * sender's username, looked up once for all distinct senders of the page.
 */
module MessageService {
  import opened Common
  import opened Store
  import opened Query
  import opened Ordering
  import opened Paging

  const UnknownSender: string := "未知用户"

  /** The map the service returns for one message; the column names are those of the messages table. */
  datatype MessageEntry = MessageEntry(
    id: MsgId,
    senderId: UserId,
    senderName: string,
    content: string,
    kind: string,
    createdAt: Time)

  // ---------------------------------------------------------------------------
  // The query `page(page, wrapper)` runs on the messages table

  /** The columns of a messages row; `is_deleted` is the tinyint 0 or 1. */
  function Column(x: MessageRow, column: string): Value
  {
    if column == "id" then IntVal(x.id)
    else if column == "conversation_id" then IntVal(x.conversationId)
    else if column == "sender_id" then IntVal(x.senderId)
    else if column == "content" then StrVal(x.content)
    else if column == "type" then StrVal(x.kind)
    else if column == "is_deleted" then IntVal(if x.isDeleted then 1 else 0)
    else if column == "created_at" then IntVal(x.createdAt)
    else Null
  }

  /** The rows of ms the conditions select, in table order. */
  function Where(ms: seq<MessageRow>, conds: seq<Condition>): (r: seq<MessageRow>)
    ensures forall x :: x in r <==> x in ms && Satisfies(conds, (c: string) => Column(x, c))
    ensures |r| <= |ms|
  {
    if ms == [] then []
    else
      var rest := Where(ms[1..], conds);
      assert forall x :: x in ms <==> x == ms[0] || x in ms[1..];
      if Satisfies(conds, (c: string) => Column(ms[0], c)) then [ms[0]] + rest else rest
  }

  /**
   * The sort key of ORDER BY column DESC on an integer column: larger values
   * come first. Only the first ORDER BY column is modelled.
   */
  function DescendingKey(descending: seq<string>): MessageRow -> int
  {
    (x: MessageRow) =>
      if descending != [] && Column(x, descending[0]).IntVal? then -Column(x, descending[0]).i else 0
  }

  /** `this.page(page, wrapper)`: the selected rows in the wrapper's order, cut to the page. */
  function Select(t: Tables, conds: seq<Condition>, descending: seq<string>, pageNum: int, pageSize: int): (p: Page<MessageRow>)
    ensures p.total <= |t.messages|
    ensures forall x :: x in p.records ==> x in t.messages && Satisfies(conds, (c: string) => Column(x, c))
  {
    var rows := SortBy(Where(t.messages, conds), DescendingKey(descending));
    SortByMembers(Where(t.messages, conds), DescendingKey(descending));
    PageOf(rows, pageNum, pageSize)
  }

  // ---------------------------------------------------------------------------
  // Sender names

  function SendersOf(ms: seq<MessageRow>): (ids: seq<UserId>)
    ensures |ids| == |ms|
    ensures forall i :: 0 <= i < |ms| ==> ids[i] == ms[i].senderId
  {
    if ms == [] then [] else [ms[0].senderId] + SendersOf(ms[1..])
  }

  /** The distinct sender ids of the page's records, in first-seen order. */
  function SenderIds(ms: seq<MessageRow>): (ids: seq<UserId>)
    ensures NoDuplicates(ids)
    ensures forall i :: 0 <= i < |ms| ==> ms[i].senderId in ids
    ensures forall u :: u in ids ==> exists i :: 0 <= i < |ms| && ms[i].senderId == u
  {
    var all := SendersOf(ms);
    assert forall i :: 0 <= i < |ms| ==> ms[i].senderId == all[i];
    Distinct(all)
  }

  /**
   * `listByIds(ids)` collected into a map by id: the users whose id is in
   * ids. Ids are distinct, so `toMap` never meets a duplicate key.
   */
  function UserMap(users: map<UserId, UserRow>, ids: seq<UserId>): (m: map<UserId, UserRow>)
    ensures m.Keys <= users.Keys
    ensures forall u :: u in m ==> u in ids && m[u] == users[u]
    ensures forall u :: u in ids && u in users ==> u in m
  {
    map u | u in users && u in ids :: users[u]
  }

  /** The name shown for a sender: the username of that user, or the placeholder once the user is gone. */
  function NameIn(userMap: map<UserId, UserRow>, u: UserId): string
  {
    if u in userMap then userMap[u].username else UnknownSender
  }

  function Entry(x: MessageRow, userMap: map<UserId, UserRow>): MessageEntry
  {
    MessageEntry(x.id, x.senderId, NameIn(userMap, x.senderId), x.content, x.kind, x.createdAt)
  }

  /** `messagePage.convert(...)` applied to the records. */
  function Entries(ms: seq<MessageRow>, userMap: map<UserId, UserRow>): (es: seq<MessageEntry>)
    ensures |es| == |ms|
    ensures forall i :: 0 <= i < |ms| ==> es[i] == Entry(ms[i], userMap)
  {
    if ms == [] then [] else [Entry(ms[0], userMap)] + Entries(ms[1..], userMap)
  }

  /**
   * `findPageWithUsername(page, wrapper)`. The page keeps the count and
   * the paging of the query; each record becomes one entry, in order, whose
   * sender name is what the whole users table says about the sender: the
   * lookup through the map built from the page's distinct senders agrees
   * with a lookup in the full table.
   */
  function FindPageWithUsername(t: Tables, conds: seq<Condition>, descending: seq<string>, pageNum: int, pageSize: int)
    : (r: Page<MessageEntry>)
    ensures var p := Select(t, conds, descending, pageNum, pageSize);
      && r.total == p.total && r.current == CurrentPage(pageNum) && r.size == pageSize
      && |r.records| == |p.records|
      && forall i :: 0 <= i < |p.records| ==>
           r.records[i] == MessageEntry(p.records[i].id, p.records[i].senderId,
                                        NameIn(t.users, p.records[i].senderId),
                                        p.records[i].content, p.records[i].kind, p.records[i].createdAt)
  {
    var p := Select(t, conds, descending, pageNum, pageSize);
    var userMap := UserMap(t.users, SenderIds(p.records));
    var es := Entries(p.records, userMap);
    assert forall i :: 0 <= i < |p.records| ==> NameIn(userMap, p.records[i].senderId) == NameIn(t.users, p.records[i].senderId);
    Page(es, p.total, p.current, p.size)
  }
}
