/**
 * The admin backend's GET /message/page: the optional sender and content
 * filters become conditions of a query wrapper, built one call at a time,
 * and the page of live messages newest first comes back through
 * MessageService.
 */
module MessageController {
  import opened Common
  import opened Strings
  import opened Store
  import opened Query
  import opened Ordering
  import opened Paging
  import opened ApiResult
  import opened MessageService

  const SenderIdNotNumber: string := "发送者ID必须是数字"
  const ListFailedPrefix: string := "获取消息列表失败："

  /** A request parameter counts as given unless it is empty or the text "null". */
  predicate Given(p: string)
  {
    p != "" && p != "null"
  }

  /**
   * The sender filter the parameter asks for: none when it is not given,
   * the trimmed parameter read as a Java int when it is, and an error when
   * that is not a number.
   */
  function SenderFilter(senderId: string): (r: Result<Option<int>>)
    ensures r.Ok? && r.value.None? <==> !Given(senderId)
    ensures r.Err? <==> Given(senderId) && JavaParseInt(JavaTrim(senderId)).None?
    ensures r.Ok? && r.value.Some? ==> JavaParseInt(JavaTrim(senderId)) == Some(r.value.value)
  {
    if !Given(senderId) then Ok(None)
    else
      match JavaParseInt(JavaTrim(senderId))
      case None => Err(SenderIdNotNumber)
      case Some(n) => Ok(Some(n))
  }

  /** The rendering of any 32-bit id is accepted as that very id, so a filter read back from a link keeps its sender. */
  lemma SenderFilterRoundTrip(n: int)
    requires JavaIntMin <= n <= JavaIntMax
    ensures SenderFilter(IntToString(n)) == Ok(Some(n))
  {
    var s := IntToString(n);
    assert s[0] != 'n';
    assert Given(s);
    assert s[|s| - 1] > ' ' by {
      if n < 0 {
        assert |s| >= 2 && s[1..][|s| - 2] == s[|s| - 1];
      }
    }
    assert JavaTrim(s) == s;
    JavaParseIntRoundTrip(n);
  }

  /** `eq("sender_id", n)` when a sender was asked for. */
  function SenderCondition(sender: Option<int>): seq<Condition>
  {
    if sender.Some? then [Condition.Eq("sender_id", IntVal(sender.value))] else []
  }

  /** `like("content", content)` when the text is given. */
  function ContentCondition(content: string): seq<Condition>
  {
    if Given(content) then [Condition.Like("content", content)] else []
  }

  const LiveCondition: Condition := Condition.Eq("is_deleted", IntVal(0))

  /** The conditions `findPage` puts in the wrapper, in the order it adds them. */
  function Conditions(sender: Option<int>, content: string): seq<Condition>
  {
    SenderCondition(sender) + ContentCondition(content) + [LiveCondition]
  }

  const OrderColumns: seq<string> := ["created_at"]

  /** What the conditions select, in terms of the message itself. */
  predicate Listed(x: MessageRow, sender: Option<int>, content: string)
  {
    && !x.isDeleted
    && (sender.Some? ==> x.senderId == sender.value)
    && (Given(content) ==> Contains(x.content, content))
  }

  lemma SenderConditionMatch(x: MessageRow, sender: Option<int>)
    ensures Satisfies(SenderCondition(sender), (c: string) => Column(x, c)) <==> (sender.Some? ==> x.senderId == sender.value)
  {
    if sender.Some? {
      assert SenderCondition(sender)[0] == Condition.Eq("sender_id", IntVal(sender.value));
    }
  }

  lemma ContentConditionMatch(x: MessageRow, content: string)
    ensures Satisfies(ContentCondition(content), (c: string) => Column(x, c)) <==> (Given(content) ==> Contains(x.content, content))
  {
    if Given(content) {
      assert ContentCondition(content)[0] == Condition.Like("content", content);
    }
  }

  /** The wrapper's conditions select exactly the live messages of the sender that contain the text. */
  lemma ConditionsMatch(x: MessageRow, sender: Option<int>, content: string)
    ensures Satisfies(Conditions(sender, content), (c: string) => Column(x, c)) <==> Listed(x, sender, content)
  {
    var row := (c: string) => Column(x, c);
    SatisfiesAppend(SenderCondition(sender) + ContentCondition(content), LiveCondition, row);
    SatisfiesConcat(SenderCondition(sender), ContentCondition(content), row);
    SenderConditionMatch(x, sender);
    ContentConditionMatch(x, content);
    assert Holds(LiveCondition, row) <==> !x.isDeleted;
  }

  /**
   * The page lists only live messages of the sender that contain the text,
   * newest first. A page size of 0 lists none of them; a negative size
   * switches paging off and lists all of them.
   */
  lemma ListingSpec(t: Tables, sender: Option<int>, content: string, pageNum: int, pageSize: int)
    ensures var p := Select(t, Conditions(sender, content), OrderColumns, pageNum, pageSize);
      && (forall x :: x in p.records ==> x in t.messages && Listed(x, sender, content))
      && (forall i, j :: 0 <= i < j < |p.records| ==> p.records[i].createdAt >= p.records[j].createdAt)
      && (pageSize == 0 ==> p.records == [])
      && (pageSize < 0 ==> forall x :: x in t.messages && Listed(x, sender, content) ==> x in p.records)
  {
    var conds := Conditions(sender, content);
    var key := DescendingKey(OrderColumns);
    var selected := Where(t.messages, conds);
    var rows := SortBy(selected, key);
    var p := Select(t, conds, OrderColumns, pageNum, pageSize);
    assert p == PageOf(rows, pageNum, pageSize);
    forall x | x in p.records ensures Listed(x, sender, content) {
      ConditionsMatch(x, sender, content);
    }
    WindowSorted(rows, pageNum, pageSize, key);
    forall i, j | 0 <= i < j < |p.records| ensures p.records[i].createdAt >= p.records[j].createdAt {
      assert key(p.records[i]) <= key(p.records[j]);
    }
    if pageSize < 0 {
      SortByMembers(selected, key);
      forall x | x in t.messages && Listed(x, sender, content) ensures x in p.records {
        ConditionsMatch(x, sender, content);
      }
    }
  }

  /**
   * `findPage(pageNum, pageSize, senderId, content)`: a sender id that is not
   * a number is refused before any query; a failing query is reported with
   * its message; otherwise the page of entries for the wrapper built from
   * the parameters.
   */
  method FindPage(t: Tables, pageNum: int, pageSize: int, senderId: string, content: string, failure: Option<string>)
    returns (r: ApiResult<Page<MessageEntry>>)
    ensures SenderFilter(senderId).Err? ==> r == Error(ServerErrorCode, SenderIdNotNumber)
    ensures SenderFilter(senderId).Ok? && failure.Some? ==> r == Error(ServerErrorCode, ListFailedPrefix + failure.value)
    ensures SenderFilter(senderId).Ok? && failure.None? ==>
      r == Success(FindPageWithUsername(t, Conditions(SenderFilter(senderId).value, content), OrderColumns, pageNum, pageSize))
  {
    var wrapper := new QueryWrapper();
    if Given(senderId) {
      var n := JavaParseInt(JavaTrim(senderId));
      if n.None? {
        return Error(ServerErrorCode, SenderIdNotNumber);
      }
      wrapper.Eq("sender_id", IntVal(n.value));
    }
    if Given(content) {
      wrapper.Like("content", content);
    }
    wrapper.Eq("is_deleted", IntVal(0));
    wrapper.OrderByDesc("created_at");
    assert wrapper.conditions == Conditions(SenderFilter(senderId).value, content);
    if failure.Some? {
      return Error(ServerErrorCode, ListFailedPrefix + failure.value);
    }
    r := Success(FindPageWithUsername(t, wrapper.conditions, wrapper.descending, pageNum, pageSize));
  }
}
