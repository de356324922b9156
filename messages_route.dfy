/**
 * The /api/messages routes: the participant-gated history fetch, the two
 * upload endpoints, the recall guard chain and the unread counter. The
 * caller is the user the auth middleware decoded from the token.
 */
module MessagesRoute {
  import opened Common
  import opened Strings
  import opened Store
  import opened Ordering
  import opened Http
  import MessageModel
  import ConversationModel
  import Upload

  const NoAccess: string := "无权访问此会话"

  /** GET /conversation/:id: 403 for a non-participant, else the conversation's history. */
  function History(t: Tables, c: ConvId, caller: UserId): (r: Reply<seq<MessageRow>>)
    ensures r.Refusal? <==> !ConversationModel.IsParticipant(t, c, caller)
    ensures r.Refusal? ==> r == Refusal(Forbidden, NoAccess)
    ensures r.Answer? ==> r.status == Success
    ensures r.Answer? ==> forall x :: x in r.value <==>
      x in t.messages && x.conversationId == c && x.senderId in t.users
    ensures r.Answer? ==> SortedBy(r.value, MessageModel.CreatedKey)
  {
    if !ConversationModel.IsParticipant(t, c, caller) then Refusal(Forbidden, NoAccess)
    else Answer(Success, MessageModel.ByConversation(t, c))
  }

  /** A participant's history holds every message of the conversation, recalled ones included. */
  lemma HistoryKeepsRecalled(t: Tables, c: ConvId, caller: UserId, x: MessageRow)
    requires ConversationModel.IsParticipant(t, c, caller)
    requires x in t.messages && x.conversationId == c && x.senderId in t.users
    ensures History(t, c, caller).Answer? && x in History(t, c, caller).value
  {
  }

  const NoFile: string := "没有文件被上传"
  const NoAudio: string := "没有音频被上传"

  /** POST /upload (field 'file') and /upload-audio (field 'audio'): 400 without a file, else its URL. */
  function UploadUrl(audio: bool, file: Option<Upload.StoredFile>): (r: Reply<string>)
    ensures file.None? <==> r.Refusal?
    ensures r.Refusal? ==> r.status == BadRequest && r.error == (if audio then NoAudio else NoFile)
  {
    if file.None? then Refusal(BadRequest, if audio then NoAudio else NoFile)
    else Answer(Success, (if audio then "/uploads/audio/" else "/uploads/files/") + file.value.filename)
  }

  /**
   * The URL a successful upload returns names the folder multer stored the
   * file in, followed by the stored file name.
   */
  lemma UploadUrlNamesStoredFile(audio: bool, mimetype: string, size: nat, originalname: string,
                                 stamp: nat, suffix: nat)
    requires Upload.Receive(if audio then "audio" else "file", mimetype, size, originalname, stamp, suffix).Ok?
    ensures var f := Upload.Receive(if audio then "audio" else "file", mimetype, size, originalname, stamp, suffix).value;
      UploadUrl(audio, Some(f)) == Answer(Success, "/" + f.dir + "/" + f.filename)
  {
    var f := Upload.Receive(if audio then "audio" else "file", mimetype, size, originalname, stamp, suffix).value;
    UploadFoldersSlashed();
    assert f.dir == (if audio then "uploads/audio" else "uploads/files");
    assert "/" + f.dir + "/" == (if audio then "/uploads/audio/" else "/uploads/files/");
  }

  lemma UploadFoldersSlashed()
    ensures "/" + "uploads/audio" + "/" == "/uploads/audio/"
    ensures "/" + "uploads/files" + "/" == "/uploads/files/"
  {
  }

  // ---------------------------------------------------------------------------
  // recall

  const NoSuchMessage: string := "消息不存在"
  const NotSender: string := "只能撤回自己的消息"
  const TooLate: string := "消息发送超过2分钟，无法撤回"
  const Recalled: string := "消息已撤回"

  /** The recall window: 2 * 60 * 1000 ms. */
  const RecallWindow: int := 2 * 60 * 1000

  /** The outcome of DELETE /:messageId before anything is written. */
  function RecallCheck(t: Tables, m: MsgId, caller: UserId, now: Time): (r: Reply<string>)
    ensures r.status == NotFound <==> MessageModel.FindById(t.messages, m).None?
    ensures r.Refusal? ==> r.status in {NotFound, Forbidden, BadRequest}
    ensures r.Answer? ==> r.status == Success && exists x :: x in t.messages && Recallable(x, m, caller, now)
  {
    var found := MessageModel.FindById(t.messages, m);
    if found.None? then Refusal(NotFound, NoSuchMessage)
    else if found.value.senderId != caller then Refusal(Forbidden, NotSender)
    else if now - found.value.createdAt > RecallWindow then Refusal(BadRequest, TooLate)
    else Answer(Success, Recalled)
  }

  /** x is message m, not yet recalled, sent by the caller at most two minutes before now. */
  predicate Recallable(x: MessageRow, m: MsgId, caller: UserId, now: Time)
  {
    x.id == m && !x.isDeleted && x.senderId == caller && now - x.createdAt <= RecallWindow
  }

  /**
   * DELETE /:messageId: the message must exist and not be recalled (404),
   * be the caller's (403) and be at most two minutes old (400); only then
   * is it soft-deleted.
   */
  method Recall(db: Db, m: MsgId, caller: UserId, now: Time) returns (r: Reply<string>)
    requires db.Valid()
    modifies db
    ensures db.Valid()
    ensures r == RecallCheck(old(db.State()), m, caller, now)
    ensures r.Answer? ==> db.State() == old(db.State()).(messages := MessageModel.SoftDelete(old(db.messages), m))
    ensures r.Refusal? ==> db.State() == old(db.State())
  {
    r := RecallCheck(db.State(), m, caller, now);
    if r.Answer? {
      MessageModel.DeleteMessage(db, m);
    }
  }

  /** Once message m is soft-deleted, every recall of it gets 404. */
  lemma RecallAfterDeleteNotFound(t: Tables, m: MsgId, caller: UserId, now: Time)
    ensures RecallCheck(t.(messages := MessageModel.SoftDelete(t.messages, m)), m, caller, now)
         == Refusal(NotFound, NoSuchMessage)
  {
    var ms := MessageModel.SoftDelete(t.messages, m);
    forall x | x in ms && x.id == m ensures x.isDeleted {
      var i :| 0 <= i < |ms| && ms[i] == x;
    }
  }

  /** The caller's own live message within the window is recalled. */
  lemma RecallOwnRecentAccepted(t: Tables, m: MsgId, caller: UserId, now: Time, x: MessageRow)
    requires IdsIncreasing(t.messages)
    requires x in t.messages && Recallable(x, m, caller, now)
    ensures RecallCheck(t, m, caller, now) == Answer(Success, Recalled)
  {
    MessageModel.FindByIdUnique(t.messages, m, x);
  }

  /** Someone else's message, or one older than the window, is refused, with 403 before 400. */
  lemma RecallOnlyOwnRecent(t: Tables, m: MsgId, caller: UserId, now: Time, x: MessageRow)
    requires IdsIncreasing(t.messages)
    requires x in t.messages && x.id == m && !x.isDeleted
    requires x.senderId != caller || now - x.createdAt > RecallWindow
    ensures RecallCheck(t, m, caller, now)
         == if x.senderId != caller then Refusal(Forbidden, NotSender) else Refusal(BadRequest, TooLate)
  {
    MessageModel.FindByIdUnique(t.messages, m, x);
  }

  // ---------------------------------------------------------------------------
  // unread

  /** GET /unread/:conversationId: `{ count }` of the caller's unread messages there. */
  function Unread(t: Tables, c: ConvId, caller: UserId): (r: Reply<nat>)
    ensures r.status == Success && r.Answer?
    ensures r.value <= |t.messages|
    ensures r.value == 0 <==> forall i :: 0 <= i < |t.messages| ==>
      !MessageModel.IsUnread(t.messages[i], t.receipts, c, caller)
  {
    Answer(Success, MessageModel.UnreadCount(t, c, caller))
  }

  /** Reading every message of the conversation brings the endpoint to zero. */
  lemma UnreadZeroAfterReadingAll(t: Tables, c: ConvId, caller: UserId)
    requires forall i :: 0 <= i < |t.messages| ==> (t.messages[i].id, caller) in t.receipts
    ensures Unread(t, c, caller) == Answer(Success, 0)
  {
    MessageModel.AllReadNoneUnread(t.messages, t.receipts, c, caller);
  }
}
