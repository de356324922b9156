/**
 * The chat page's bookkeeping: the open message list, the conversation
 * list with its previews, the unread counters and the group-member
 * selection. The React state hooks become the fields of `Client`; each
 * socket event or user action becomes a method, and the updater functions
 * handed to the state setters are the pure functions below. HTTP
 * responses arrive as parameters (None for a request that failed); the
 * socket's outgoing events collect in `outbox`.
 */
module ChatClient {
  import opened Common
  import opened Strings
  import Upload
  import ConversationsRoute

  /** A message id: the server's number, or the `temp-<Date.now()>` of a local echo. */
  datatype MessageKey = ServerId(id: MsgId) | TempId(stamp: int)

  datatype ChatMessage = ChatMessage(
    id: MessageKey,
    conversationId: ConvId,
    senderId: UserId,
    content: string,
    kind: string,
    createdAt: string)

  /** The three preview fields of a list entry: last_message, last_message_type, last_message_time. */
  datatype Preview = Preview(content: string, kind: string, time: string)

  /** A conversation list entry; `name` stands for the fields the object spread copies unchanged. */
  datatype ConvItem = ConvItem(id: ConvId, name: Option<string>, preview: Option<Preview>)

  /** The events the page emits on its socket. */
  datatype Emit =
    | JoinConversation(conversation: ConvId)
    | SendText(conversation: ConvId, content: string, kind: string)
    | GroupCreated(conversation: ConvId, participants: seq<UserId>, item: ConvItem)

  function PreviewOf(m: ChatMessage): Preview
  {
    Preview(m.content, m.kind, m.createdAt)
  }

  // ---------------------------------------------------------------------------
  // The open message list

  predicate HasId(msgs: seq<ChatMessage>, k: MessageKey)
  {
    exists i :: 0 <= i < |msgs| && msgs[i].id == k
  }

  predicate UniqueIds(msgs: seq<ChatMessage>)
  {
    forall i, j :: 0 <= i < j < |msgs| ==> msgs[i].id != msgs[j].id
  }

  /**
   * The `receive_message` updater of the message list: the message is
   * appended when it belongs to the conversation `open` and no message
   * with its id is listed; otherwise the list is kept.
   */
  function AppendIfNew(msgs: seq<ChatMessage>, open: Option<ConvId>, m: ChatMessage): (r: seq<ChatMessage>)
    ensures |msgs| <= |r| <= |msgs| + 1 && r[..|msgs|] == msgs
    ensures |r| == |msgs| + 1 <==> open == Some(m.conversationId) && !HasId(msgs, m.id)
    ensures |r| == |msgs| + 1 ==> r[|msgs|] == m
  {
    if open == Some(m.conversationId) && !HasId(msgs, m.id) then msgs + [m] else msgs
  }

  /** Delivering the same message twice lists it once. */
  lemma AppendIfNewIdempotent(msgs: seq<ChatMessage>, open: Option<ConvId>, m: ChatMessage)
    ensures AppendIfNew(AppendIfNew(msgs, open, m), open, m) == AppendIfNew(msgs, open, m)
  {
    var r := AppendIfNew(msgs, open, m);
    if |r| == |msgs| + 1 {
      assert r[|msgs|].id == m.id;
    } else {
      assert r == msgs;
    }
  }

  /** A list without repeated ids keeps that property. */
  lemma AppendIfNewKeepsUniqueIds(msgs: seq<ChatMessage>, open: Option<ConvId>, m: ChatMessage)
    requires UniqueIds(msgs)
    ensures UniqueIds(AppendIfNew(msgs, open, m))
  {
  }

  // ---------------------------------------------------------------------------
  // The conversation list

  predicate Lists(convs: seq<ConvItem>, c: ConvId)
  {
    exists i :: 0 <= i < |convs| && convs[i].id == c
  }

  predicate UniqueConvIds(convs: seq<ConvItem>)
  {
    forall i, j :: 0 <= i < j < |convs| ==> convs[i].id != convs[j].id
  }

  /** The `map` that gives conversation c the preview p: the list keeps its length, order and ids. */
  function WithPreview(convs: seq<ConvItem>, c: ConvId, p: Preview): (r: seq<ConvItem>)
    ensures |r| == |convs|
    ensures forall i :: 0 <= i < |r| ==> r[i].id == convs[i].id && r[i].name == convs[i].name
    ensures forall i :: 0 <= i < |r| ==> r[i].preview == (if convs[i].id == c then Some(p) else convs[i].preview)
  {
    if convs == [] then []
    else [if convs[0].id == c then convs[0].(preview := Some(p)) else convs[0]] + WithPreview(convs[1..], c, p)
  }

  /** The `filter` keeping every entry but c's, in their order. */
  function Others(convs: seq<ConvItem>, c: ConvId): (r: seq<ConvItem>)
    ensures |r| <= |convs|
    ensures forall x :: x in r <==> x in convs && x.id != c
  {
    if convs == [] then []
    else (if convs[0].id == c then [] else [convs[0]]) + Others(convs[1..], c)
  }

  /** `find`: the first entry of conversation c. */
  function Find(convs: seq<ConvItem>, c: ConvId): (r: Option<ConvItem>)
    ensures r.Some? <==> Lists(convs, c)
    ensures r.Some? ==> r.value.id == c && r.value in convs
  {
    if convs == [] then None
    else if convs[0].id == c then Some(convs[0])
    else
      var r := Find(convs[1..], c);
      assert Lists(convs[1..], c) ==> Lists(convs, c) by {
        if Lists(convs[1..], c) {
          var i :| 0 <= i < |convs[1..]| && convs[1..][i].id == c;
          assert convs[i + 1].id == c;
        }
      }
      r
  }

  /** Conversation c's entry first, then the others in their order; the list as it was when c is absent. */
  function MoveToFront(convs: seq<ConvItem>, c: ConvId): (r: seq<ConvItem>)
  {
    var target := Find(convs, c);
    if target.Some? then [target.value] + Others(convs, c) else convs
  }

  /** The `receive_message` updater of the conversation list (and `sendMessage`'s, for the own message). */
  function Bump(convs: seq<ConvItem>, c: ConvId, p: Preview): seq<ConvItem>
  {
    MoveToFront(WithPreview(convs, c, p), c)
  }

  lemma {:induction false} OthersOfWithPreview(convs: seq<ConvItem>, c: ConvId, p: Preview)
    ensures Others(WithPreview(convs, c, p), c) == Others(convs, c)
  {
    if convs != [] {
      OthersOfWithPreview(convs[1..], c, p);
      assert WithPreview(convs, c, p)[1..] == WithPreview(convs[1..], c, p);
    }
  }

  lemma {:induction false} OthersLength(convs: seq<ConvItem>, c: ConvId)
    requires UniqueConvIds(convs) && Lists(convs, c)
    ensures |Others(convs, c)| == |convs| - 1
  {
    if convs[0].id != c {
      var i :| 0 <= i < |convs| && convs[i].id == c;
      assert convs[1..][i - 1].id == c;
      OthersLength(convs[1..], c);
    } else {
      assert Others(convs[1..], c) == convs[1..] by { OthersNotListed(convs[1..], c); }
    }
  }

  lemma {:induction false} OthersNotListed(convs: seq<ConvItem>, c: ConvId)
    requires !Lists(convs, c)
    ensures Others(convs, c) == convs
  {
    if convs != [] {
      forall i | 0 <= i < |convs[1..]| ensures convs[1..][i].id != c {
        assert convs[1..][i] == convs[i + 1];
      }
      OthersNotListed(convs[1..], c);
      assert [convs[0]] + convs[1..] == convs;
    }
  }

  lemma {:induction false} OthersUnique(convs: seq<ConvItem>, c: ConvId)
    requires UniqueConvIds(convs)
    ensures UniqueConvIds(Others(convs, c))
  {
    if convs != [] {
      OthersUnique(convs[1..], c);
      var rest := Others(convs[1..], c);
      forall x | x in rest ensures x.id != convs[0].id {
        var i :| 0 <= i < |convs[1..]| && convs[1..][i] == x;
        assert convs[i + 1] == x;
      }
    }
  }

  /**
   * A message for a listed conversation puts that entry first with the
   * message as its preview, followed by every other entry in the order
   * they had; a message for an unlisted conversation leaves the list as it
   * was.
   */
  lemma BumpMovesToFront(convs: seq<ConvItem>, c: ConvId, p: Preview)
    ensures Lists(convs, c) ==>
      var r := Bump(convs, c, p);
      |r| >= 1 && r[0].id == c && r[0].preview == Some(p) && r[0].name == Find(convs, c).value.name
      && r[1..] == Others(convs, c)
    ensures !Lists(convs, c) ==> Bump(convs, c, p) == convs
  {
    var w := WithPreview(convs, c, p);
    assert Lists(w, c) <==> Lists(convs, c) by {
      if Lists(convs, c) {
        var i :| 0 <= i < |convs| && convs[i].id == c;
        assert w[i].id == c;
      }
      if Lists(w, c) {
        var i :| 0 <= i < |w| && w[i].id == c;
        assert convs[i].id == c;
      }
    }
    if Lists(convs, c) {
      OthersOfWithPreview(convs, c, p);
      FindOfWithPreview(convs, c, p);
    } else {
      assert forall i :: 0 <= i < |w| ==> w[i] == convs[i];
    }
  }

  lemma {:induction false} FindOfWithPreview(convs: seq<ConvItem>, c: ConvId, p: Preview)
    requires Lists(convs, c)
    ensures Find(WithPreview(convs, c, p), c) == Some(Find(convs, c).value.(preview := Some(p)))
  {
    if convs[0].id != c {
      var i :| 0 <= i < |convs| && convs[i].id == c;
      assert convs[1..][i - 1].id == c;
      FindOfWithPreview(convs[1..], c, p);
      assert WithPreview(convs, c, p)[1..] == WithPreview(convs[1..], c, p);
    }
  }

  /** Moving an entry to the front keeps a list without repeated ids so, and keeps its length. */
  lemma BumpKeepsUniqueIds(convs: seq<ConvItem>, c: ConvId, p: Preview)
    requires UniqueConvIds(convs)
    ensures UniqueConvIds(Bump(convs, c, p)) && |Bump(convs, c, p)| == |convs|
  {
    var w := WithPreview(convs, c, p);
    assert UniqueConvIds(w);
    if Lists(w, c) {
      OthersUnique(w, c);
      OthersLength(w, c);
      var r := Bump(convs, c, p);
      forall i | 1 <= i < |r| ensures r[i].id != c {
        assert r[i] in Others(w, c);
      }
    }
  }

  // ---------------------------------------------------------------------------
  // Unread counters

  /** `prev[c] || 0`. */
  function UnreadOf(counts: map<ConvId, nat>, c: ConvId): nat
  {
    if c in counts then counts[c] else 0
  }

  function Increment(counts: map<ConvId, nat>, c: ConvId): (r: map<ConvId, nat>)
    ensures UnreadOf(r, c) == UnreadOf(counts, c) + 1
    ensures forall d :: d != c ==> UnreadOf(r, d) == UnreadOf(counts, d)
  {
    counts[c := UnreadOf(counts, c) + 1]
  }

  function Reset(counts: map<ConvId, nat>, c: ConvId): (r: map<ConvId, nat>)
    ensures UnreadOf(r, c) == 0
    ensures forall d :: d != c ==> UnreadOf(r, d) == UnreadOf(counts, d)
  {
    counts[c := 0]
  }

  /**
   * Whether `receive_message` counts m as unread: sent by someone else,
   * not for the conversation `open`, and not for the entry the list shows
   * as selected.
   */
  predicate Counts(m: ChatMessage, me: UserId, open: Option<ConvId>, selected: bool)
  {
    m.senderId != me && open != Some(m.conversationId) && !selected
  }

  // ---------------------------------------------------------------------------
  // Group creation and the member selection

  /** A friend's button: selected ids lose it, the others gain it at the end. */
  function Toggle(selected: seq<UserId>, id: UserId): (r: seq<UserId>)
    ensures id in r <==> id !in selected
    ensures forall x :: x != id ==> (x in r <==> x in selected)
  {
    if id in selected then RemoveAll(selected, id) else selected + [id]
  }

  /** Toggling keeps the selection free of repeats, and toggling a new id twice restores the selection. */
  lemma ToggleTwice(selected: seq<UserId>, id: UserId)
    requires NoDuplicates(selected)
    ensures NoDuplicates(Toggle(selected, id))
    ensures id !in selected ==> Toggle(Toggle(selected, id), id) == selected
  {
    if id in selected {
      RemoveAllKeepsNoDuplicates(selected, id);
    } else {
      RemoveAllAbsentLast(selected, id);
    }
  }

  lemma {:induction false} RemoveAllKeepsNoDuplicates(s: seq<UserId>, x: UserId)
    requires NoDuplicates(s)
    ensures NoDuplicates(RemoveAll(s, x))
  {
    if s != [] {
      RemoveAllKeepsNoDuplicates(s[1..], x);
      assert s[0] !in s[1..] by {
        forall i | 0 <= i < |s[1..]| ensures s[1..][i] != s[0] {
          assert s[1..][i] == s[i + 1];
        }
      }
    }
  }

  lemma {:induction false} RemoveAllAbsentLast(s: seq<UserId>, x: UserId)
    requires x !in s
    ensures RemoveAll(s + [x], x) == s
  {
    if s == [] {
      assert RemoveAll([x], x) == [] + RemoveAll([x][1..], x);
    } else {
      RemoveAllAbsentLast(s[1..], x);
      assert (s + [x])[1..] == s[1..] + [x];
      assert [s[0]] + s[1..] == s;
    }
  }

  datatype GroupForm = GroupForm(name: string, members: seq<UserId>)

  /**
   * `createGroup`'s guard: nothing is posted for a blank name or an empty
   * selection; otherwise the name as typed and the selection are posted.
   */
  function GroupRequest(groupName: string, selected: seq<UserId>): (r: Option<GroupForm>)
    ensures r.None? <==> JsTrim(groupName) == "" || |selected| == 0
    ensures r.Some? ==> r.value.members == selected && r.value.name == groupName
  {
    if JsTrim(groupName) == "" || |selected| == 0 then None else Some(GroupForm(groupName, selected))
  }

  /** What the page posts always passes the server's own guard. */
  lemma GroupRequestPassesServerGuard(groupName: string, selected: seq<UserId>)
    requires GroupRequest(groupName, selected).Some?
    ensures ConversationsRoute.GroupRequestValid(Some(groupName), Some(selected))
  {
    assert JsTrim("") == "";
  }

  // ---------------------------------------------------------------------------
  // getFileType

  datatype FileKind = Image | Video | OtherFile

  const ImageTypes: seq<string> := ["jpg", "jpeg", "png", "gif", "webp"]
  const VideoTypes: seq<string> := ["mp4", "webm", "ogg"]

  /** The kind named by an extension (without its dot). */
  function KindOf(extension: string): FileKind
  {
    if extension in ImageTypes then Image else if extension in VideoTypes then Video else OtherFile
  }

  /** `getFileType`: the kind of the lower-cased text after the URL's last '.'. */
  function FileType(url: string): FileKind
  {
    KindOf(ToLower(LastPiece(url, '.')))
  }

  /**
   * The URL an upload returns is classified by the extension of the file
   * the user picked, whatever its case: "Photo.JPG" is an image.
   */
  lemma FileTypeOfUpload(originalname: string, stamp: nat, suffix: nat)
    requires Upload.Extname(originalname) != ""
    ensures FileType("/uploads/files/" + Upload.Filename("file", stamp, suffix, originalname))
         == KindOf(ToLower(Upload.Extname(originalname)[1..]))
  {
    var e := Upload.Extname(originalname);
    var rest := e[1..];
    var lowered := ToLower(rest);
    assert e == ['.'] + rest;
    assert ToLower(e) == ['.'] + lowered;
    var q := "file" + "-" + IntToString(stamp) + "-" + IntToString(suffix);
    var p := "/uploads/files/" + q;
    assert Upload.Filename("file", stamp, suffix, originalname) == q + (['.'] + lowered);
    SplitAtLastDot(p, "/uploads/files/", q, lowered);
    ToLowerKeepsDots(rest);
    assert '.' !in lowered;
    LastPieceAfter(p, '.', lowered);
    ToLowerIdempotent(rest);
  }

  lemma SplitAtLastDot(p: string, dir: string, q: string, ext: string)
    requires p == dir + q
    ensures dir + (q + (['.'] + ext)) == p + ['.'] + ext
  {
  }

  /** A stored file whose original name had no extension is never shown as an image or a video. */
  lemma FileTypeOfUploadWithoutExtension(originalname: string, stamp: nat, suffix: nat)
    requires Upload.Extname(originalname) == ""
    ensures FileType("/uploads/files/" + Upload.Filename("file", stamp, suffix, originalname)) == OtherFile
  {
    var p := "file" + "-" + IntToString(stamp) + "-" + IntToString(suffix);
    Upload.GeneratedPrefixDotless("file", stamp, suffix);
    assert Upload.Filename("file", stamp, suffix, originalname) == p;
    var url := "/uploads/files/" + p;
    assert '.' !in p;
    assert '.' !in url;
    LastPieceWhole(url, '.');
    KindOfPath(ToLower(url));
  }

  /** No listed extension starts with '/'. */
  lemma KindOfPath(l: string)
    requires |l| > 0 && l[0] == '/'
    ensures KindOf(l) == OtherFile
  {
    assert forall x :: x in ImageTypes + VideoTypes ==> |x| > 0 && x[0] != '/';
  }

  // ---------------------------------------------------------------------------
  // The page

  class Client {
    const me: UserId
    var conversations: seq<ConvItem>
    var current: Option<ConvItem>
    var active: Option<ConvId>
    var messages: seq<ChatMessage>
    var input: string
    var unread: map<ConvId, nat>
    var selected: seq<UserId>
    var groupName: string
    var socketReady: bool
    var outbox: seq<Emit>

    /**
     * The `currentConversation` the socket handlers close over: the
     * effect that registers them runs once per token, on mount, while no
     * conversation is open.
     */
    const captured: Option<ConvId> := None

    function CurrentId(): Option<ConvId>
      reads this
    {
      if current.Some? then Some(current.value.id) else None
    }

    /**
     * The rendered list has an entry for c with the `selected` class: c is
     * in the list and is the current conversation.
     */
    predicate ShownSelected(c: ConvId)
      reads this
    {
      Lists(conversations, c) && CurrentId() == Some(c)
    }

    constructor(me: UserId)
      ensures this.me == me
      ensures conversations == [] && current.None? && active.None? && messages == [] && input == ""
      ensures unread == map[] && selected == [] && groupName == "" && !socketReady && outbox == []
    {
      this.me := me;
      conversations, current, active, messages, input := [], None, None, [], "";
      unread, selected, groupName, socketReady, outbox := map[], [], "", false, [];
    }

    /** `authenticated`: the socket is kept only on success. */
    method OnAuthenticated(success: bool)
      modifies this
      ensures socketReady == (old(socketReady) || success)
      ensures conversations == old(conversations) && current == old(current) && active == old(active)
      ensures messages == old(messages) && input == old(input) && unread == old(unread)
      ensures selected == old(selected) && groupName == old(groupName) && outbox == old(outbox)
    {
      if success {
        socketReady := true;
      }
    }

    /** `loadConversations` answered with a list. */
    method OnConversationsLoaded(list: seq<ConvItem>)
      modifies this
      ensures conversations == list
      ensures current == old(current) && active == old(active) && socketReady == old(socketReady)
      ensures messages == old(messages) && input == old(input) && unread == old(unread)
      ensures selected == old(selected) && groupName == old(groupName) && outbox == old(outbox)
    {
      conversations := list;
    }

    /**
     * `receive_message` as written: the message list is updated against
     * the captured conversation, which is none, so it never changes, even
     * when m belongs to the conversation on screen; the list entry moves to
     * the front; the unread counter is spared only by the `selected`
     * class of the list as last rendered, before the move.
     */
    method OnReceiveMessage(m: ChatMessage)
      modifies this
      ensures messages == AppendIfNew(old(messages), captured, m)
      ensures messages == old(messages)
      ensures conversations == Bump(old(conversations), m.conversationId, PreviewOf(m))
      ensures unread == if Counts(m, me, captured, old(ShownSelected(m.conversationId)))
                        then Increment(old(unread), m.conversationId) else old(unread)
      ensures unread == if m.senderId != me && !(old(CurrentId()) == Some(m.conversationId) && Lists(old(conversations), m.conversationId))
                        then Increment(old(unread), m.conversationId) else old(unread)
      ensures current == old(current) && active == old(active) && socketReady == old(socketReady)
      ensures input == old(input) && selected == old(selected) && groupName == old(groupName) && outbox == old(outbox)
    {
      var isSelected := ShownSelected(m.conversationId);
      messages := AppendIfNew(messages, captured, m);
      conversations := Bump(conversations, m.conversationId, PreviewOf(m));
      if m.senderId != me && captured != Some(m.conversationId) {
        if !isSelected {
          unread := Increment(unread, m.conversationId);
        }
      }
    }

    /**
     * `receive_message` reading the live current conversation: a new
     * message of the conversation on screen is appended once, and only
     * messages of other conversations from other users are counted: the
     * `selected`-class check adds nothing once the open conversation is
     * read live.
     */
    method OnReceiveMessageLive(m: ChatMessage)
      modifies this
      ensures messages == AppendIfNew(old(messages), old(CurrentId()), m)
      ensures old(CurrentId()) == Some(m.conversationId) && !HasId(old(messages), m.id) ==>
        messages == old(messages) + [m]
      ensures conversations == Bump(old(conversations), m.conversationId, PreviewOf(m))
      ensures unread == if m.senderId != me && old(CurrentId()) != Some(m.conversationId)
                        then Increment(old(unread), m.conversationId) else old(unread)
      ensures current == old(current) && active == old(active) && socketReady == old(socketReady)
      ensures input == old(input) && selected == old(selected) && groupName == old(groupName) && outbox == old(outbox)
    {
      var isSelected := ShownSelected(m.conversationId);
      var open := CurrentId();
      messages := AppendIfNew(messages, open, m);
      conversations := Bump(conversations, m.conversationId, PreviewOf(m));
      if Counts(m, me, open, isSelected) {
        unread := Increment(unread, m.conversationId);
      }
    }

    /** `conversation_updated`: the entry's preview changes in place; the list keeps its order. */
    method OnConversationUpdated(c: ConvId, p: Preview)
      modifies this
      ensures conversations == WithPreview(old(conversations), c, p)
      ensures current == old(current) && active == old(active) && socketReady == old(socketReady)
      ensures messages == old(messages) && input == old(input) && unread == old(unread)
      ensures selected == old(selected) && groupName == old(groupName) && outbox == old(outbox)
    {
      conversations := WithPreview(conversations, c, p);
    }

    /**
     * `new_conversation`: the fetched entry goes first; when the fetch
     * fails the whole list is reloaded (`reloaded`, None when that fails
     * too).
     */
    method OnNewConversation(fetched: Option<ConvItem>, reloaded: Option<seq<ConvItem>>)
      modifies this
      ensures fetched.Some? ==> conversations == [fetched.value] + old(conversations)
      ensures fetched.None? ==> conversations == (if reloaded.Some? then reloaded.value else old(conversations))
      ensures current == old(current) && active == old(active) && socketReady == old(socketReady)
      ensures messages == old(messages) && input == old(input) && unread == old(unread)
      ensures selected == old(selected) && groupName == old(groupName) && outbox == old(outbox)
    {
      if fetched.Some? {
        conversations := [fetched.value] + conversations;
      } else if reloaded.Some? {
        conversations := reloaded.value;
      }
    }

    /**
     * `handleConversationClick` (with the effect on currentConversation):
     * the conversation's counter is cleared either way; a different one
     * becomes current, its history replaces the list when the fetch
     * succeeds, and the room is joined when the socket is up.
     */
    method Open(conv: ConvItem, history: Option<seq<ChatMessage>>)
      modifies this
      ensures UnreadOf(unread, conv.id) == 0
      ensures forall d :: d != conv.id ==> UnreadOf(unread, d) == UnreadOf(old(unread), d)
      ensures active == Some(conv.id) && CurrentId() == Some(conv.id)
      ensures old(CurrentId()) == Some(conv.id) ==>
        current == old(current) && messages == old(messages) && outbox == old(outbox)
      ensures old(CurrentId()) != Some(conv.id) ==>
        current == Some(conv)
        && messages == (if history.Some? then history.value else old(messages))
        && outbox == old(outbox) + (if history.Some? && socketReady then [JoinConversation(conv.id)] else [])
      ensures conversations == old(conversations) && socketReady == old(socketReady)
      ensures input == old(input) && selected == old(selected) && groupName == old(groupName)
    {
      if CurrentId() == Some(conv.id) {
        active := Some(conv.id);
        unread := Reset(unread, conv.id);
        return;
      }
      current := Some(conv);
      active := Some(conv.id);
      unread := Reset(unread, conv.id);
      if history.None? {
        return;
      }
      messages := history.value;
      if socketReady {
        outbox := outbox + [JoinConversation(conv.id)];
      }
    }

    /** The message box's onChange. */
    method Type(text: string)
      modifies this
      ensures input == text
      ensures conversations == old(conversations) && current == old(current) && active == old(active)
      ensures messages == old(messages) && unread == old(unread) && socketReady == old(socketReady)
      ensures selected == old(selected) && groupName == old(groupName) && outbox == old(outbox)
    {
      input := text;
    }

    /**
     * `sendMessage`: nothing happens for a blank input, with no open
     * conversation or no socket; otherwise the trimmed text is echoed as a
     * temporary message, the input is cleared, the entry moves to the front
     * with the text as preview, and the message is emitted. The clock is
     * read twice: `createdIso` stamps the temporary message and `previewIso`
     * the preview.
     */
    method SendMessage(stamp: int, createdIso: string, previewIso: string)
      modifies this
      ensures JsTrim(old(input)) == "" || old(current).None? || !old(socketReady) ==>
        messages == old(messages) && input == old(input) && conversations == old(conversations)
        && outbox == old(outbox)
      ensures !(JsTrim(old(input)) == "" || old(current).None? || !old(socketReady)) ==>
        var c := old(current).value.id;
        var text := JsTrim(old(input));
        messages == old(messages) + [ChatMessage(TempId(stamp), c, me, text, "text", createdIso)]
        && input == ""
        && conversations == Bump(old(conversations), c, Preview(text, "text", previewIso))
        && outbox == old(outbox) + [SendText(c, text, "text")]
      ensures current == old(current) && active == old(active) && unread == old(unread)
      ensures socketReady == old(socketReady) && selected == old(selected) && groupName == old(groupName)
    {
      if JsTrim(input) == "" || current.None? || !socketReady {
        return;
      }
      var c := current.value.id;
      var text := JsTrim(input);
      messages := messages + [ChatMessage(TempId(stamp), c, me, text, "text", createdIso)];
      input := "";
      conversations := Bump(conversations, c, Preview(text, "text", previewIso));
      outbox := outbox + [SendText(c, text, "text")];
    }

    /** A friend's selection button in the create-group dialog. */
    method ToggleFriend(id: UserId)
      modifies this
      ensures selected == Toggle(old(selected), id)
      ensures conversations == old(conversations) && current == old(current) && active == old(active)
      ensures messages == old(messages) && input == old(input) && unread == old(unread)
      ensures socketReady == old(socketReady) && groupName == old(groupName) && outbox == old(outbox)
    {
      selected := Toggle(selected, id);
    }

    /** The group name field's onChange. */
    method NameGroup(name: string)
      modifies this
      ensures groupName == name
      ensures conversations == old(conversations) && current == old(current) && active == old(active)
      ensures messages == old(messages) && input == old(input) && unread == old(unread)
      ensures socketReady == old(socketReady) && selected == old(selected) && outbox == old(outbox)
    {
      groupName := name;
    }

    /**
     * `createGroup`: returns what is posted (None: the guard stopped it).
     * On the server's answer `created` the group goes first in the list.
     * With a socket, `group_created` is emitted for the selection plus the
     * creator, the dialog is cleared and the group is opened with `history`.
     * Without one, `socket.emit` throws: the handler's catch reports the
     * failure and the prepended group is all that changed.
     */
    method CreateGroup(created: Option<ConvItem>, history: Option<seq<ChatMessage>>)
      returns (posted: Option<GroupForm>)
      modifies this
      ensures posted == GroupRequest(old(groupName), old(selected))
      ensures posted.None? || created.None? ==>
        conversations == old(conversations) && outbox == old(outbox) && current == old(current)
        && groupName == old(groupName) && selected == old(selected) && messages == old(messages)
        && unread == old(unread) && active == old(active)
      ensures posted.Some? && created.Some? ==> conversations == [created.value] + old(conversations)
      ensures posted.Some? && created.Some? && !old(socketReady) ==>
        outbox == old(outbox) && current == old(current) && groupName == old(groupName)
        && selected == old(selected) && messages == old(messages) && unread == old(unread) && active == old(active)
      ensures posted.Some? && created.Some? && old(socketReady) ==>
        && |outbox| >= |old(outbox)| + 1
        && outbox[|old(outbox)|] == GroupCreated(created.value.id, old(selected) + [me], created.value)
        && groupName == "" && selected == []
        && CurrentId() == Some(created.value.id) && UnreadOf(unread, created.value.id) == 0
      ensures input == old(input) && socketReady == old(socketReady)
    {
      posted := GroupRequest(groupName, selected);
      if posted.None? || created.None? {
        return;
      }
      conversations := [created.value] + conversations;
      if !socketReady {
        return;
      }
      outbox := outbox + [GroupCreated(created.value.id, selected + [me], created.value)];
      groupName := "";
      selected := [];
      ghost var sent := outbox;
      Open(created.value, history);
      assert outbox[..|sent|] == sent;
    }
  }
}
