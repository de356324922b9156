# XinhaoChat messaging core in Dafny

XinhaoChat has three parts:

- **XhChat server.** An instant-messaging server built on Express, Socket.io and MySQL.
- **XhChat client.** A React client.
- **XhchatManage backend.** A Spring Boot admin backend.

This project models the stateful core underneath that plumbing and proves what its code promises.

## What is modelled

- **Store.** The MySQL tables are one value, `Store.Tables`:
  - users, conversations, participants, read receipts, friendships, member roles and settings;
  - the id counters.

  `Store.Db` is the class whose methods change those tables in place. A transaction takes a snapshot and rolls back to it.
- **Server models.** `Message.js`, `Conversation.js`, `User.js`, `UserStatus.js` and `UserSettings.js` are the modules `MessageModel`, `ConversationModel`, `UserModel`, `UserStatus` and `UserSettings`:
  - pure queries are functions over `Tables`;
  - writes are methods on a `Db`.
- **Routes.** `messages.js`, `conversations.js`, `users.js` and `auth.js` are `MessagesRoute`, `ConversationsRoute`, `UsersRoute` and `AuthRoute`. Each is a guard chain that ends in its store writes, an HTTP status and a message (`Http.Reply`).
- **Upload middleware.** The destination, file name and filter of `upload.js` are `Upload`.
- **Socket gateway.** `server.js` is `Gateway.Server`, a class with:
  - one session per socket (user, rooms, connected);
  - an outbox of (destination, event) pairs;
  - a method per socket handler: `authenticate`, `send_message`, `join_room`, `leave_room`, `group_created`.

  Fan-out over participants is a loop proved equal to a specification function.
- **Chat client.** The state of the `Chat.js` component is `ChatClient.Client`. Each socket event and user action is a method. The state updaters are pure functions with their own lemmas:
  - move-to-front;
  - append-if-new;
  - unread counters;
  - the selection toggle;
  - `getFileType`.
- **Client forms.** `Register.js` and `ProfileForm.js` are `RegisterForm` and `ProfileForm`. Lemmas tie each form to the server route it posts to.
- **Admin backend:**
  - `Result.java` is `ApiResult`, with the paging of MyBatis-Plus in `Paging`;
  - `QueryWrapper` is `Query`, a class whose condition list is built step by step;
  - `MessageController`, `MessageService`, `UserController` and `UserService` have modules of their own names;
  - the statements of `UserMapper.java` are `UserMapper`.

  `UserService.TodayCounter` holds the fields of the daily-increase counter. The cascade delete is a loop over owned conversations, proved against a specification function.
- **Supporting modules.** `Strings` models:
  - JavaScript's `parseInt` and `trim`;
  - Java's `Integer.parseInt` and `trim`;
  - lower-casing, `split` and the last piece of a path.

  `Ordering` is a stable sort standing in for SQL `ORDER BY`.

## How the environment is modelled

- **Clock and random suffix.** Parameters (`now`, `stamp`, `suffix`).
- **bcrypt.** Replaced by a comparison function given as a parameter.
- **JWT.** Verification is its decoded result. Signing is the claims record.
- **Store failures.** A failure that table contents cannot predict is a parameter (`fails`, `failAt`). An example is a dropped connection.
- **Duplicate keys.** Participant pairs and friendship pairs are treated as unique keys. A duplicate insert therefore fails with a duplicate-entry error.

## Model

| member | source | states |
|---|---|---|
| ApiResult.Success | XhchatManage/backend/src/main/java/com/xinhao/backend/common/Result.java:15-17 | a success carries code "200", the message 操作成功 and the data |
| ApiResult.SuccessEmpty | XhchatManage/backend/src/main/java/com/xinhao/backend/common/Result.java:19-21 | a success without data carries code "200" and 操作成功 and no data |
| ApiResult.Error | XhchatManage/backend/src/main/java/com/xinhao/backend/common/Result.java:23-25 | an error carries exactly the code and message it is given and no data |
| ApiResult.ErrorReadsAsSuccessOnlyWith200 | XhchatManage/backend/src/main/java/com/xinhao/backend/common/Result.java:15-25 | an error reads as a success exactly when its code is "200", and equals the empty success exactly when its message is also 操作成功 |
| Paging.Window | XhchatManage/backend/src/main/java/com/xinhao/backend/controller/MessageController.java:29 | a page holds at most pageSize rows, all taken from the result, so a size of 0 holds none; a negative size switches paging off and the page is the whole result |
| Paging.CurrentPage | XhchatManage/backend/src/main/java/com/xinhao/backend/controller/MessageController.java:29 | the page number a MyBatis-Plus `Page` keeps is at least 1: the one asked for when it is 1 or more, otherwise 1 |
| Paging.PageOf | XhchatManage/backend/src/main/java/com/xinhao/backend/controller/MessageController.java:29 | the page reports the page number `Page` kept (1 for any number below 1) and the size; with paging on, the full count and at most pageSize rows (none for size 0); with a negative size, a count of 0 and every row; only rows of the result |
| Paging.WindowSorted | XhchatManage/backend/src/main/java/com/xinhao/backend/controller/MessageController.java:29 | cutting a page out of an ordered result keeps it ordered |
| Paging.WindowDistinct | XhchatManage/backend/src/main/java/com/xinhao/backend/controller/MessageController.java:29 | cutting a page out of a result without repeats has no repeats |
| Paging.ConsecutivePagesAdjacent | XhchatManage/backend/src/main/java/com/xinhao/backend/controller/MessageController.java:29 | page n followed by page n+1 is exactly the contiguous run of rows they cover: nothing skipped, nothing repeated |
| Query.SatisfiesAppend | XhchatManage/backend/src/main/java/com/xinhao/backend/controller/MessageController.java:32-46 | each condition added to the wrapper narrows the selected rows by exactly that condition (AND) |
| Query.SatisfiesConcat | XhchatManage/backend/src/main/java/com/xinhao/backend/controller/UserController.java:80-94 | a row meets a concatenation of condition lists exactly when it meets both |
| Query.QueryWrapper.constructor | XhchatManage/backend/src/main/java/com/xinhao/backend/controller/MessageController.java:30 | a new wrapper has no conditions and no ordering |
| Query.QueryWrapper.Eq | XhchatManage/backend/src/main/java/com/xinhao/backend/controller/MessageController.java:44 | eq appends one equality condition and leaves the ordering alone |
| Query.QueryWrapper.Like | XhchatManage/backend/src/main/java/com/xinhao/backend/controller/MessageController.java:40 | like appends one containment condition and leaves the ordering alone |
| Query.QueryWrapper.OrderByDesc | XhchatManage/backend/src/main/java/com/xinhao/backend/controller/MessageController.java:46 | orderByDesc appends one descending column and leaves the conditions alone |
| MessageService.Where | XhchatManage/backend/src/main/java/com/xinhao/backend/service/MessageService.java:24 | the query selects exactly the messages that meet the wrapper's conditions, and no more rows than the table has |
| MessageService.Select | XhchatManage/backend/src/main/java/com/xinhao/backend/service/MessageService.java:24 | a queried page counts at most the table and lists only messages of the table that meet the conditions |
| MessageService.SenderIds | XhchatManage/backend/src/main/java/com/xinhao/backend/service/MessageService.java:27-30 | the sender ids are distinct and are exactly the senders of the page's records |
| MessageService.UserMap | XhchatManage/backend/src/main/java/com/xinhao/backend/service/MessageService.java:33-34 | the map holds exactly the existing users among the ids, each with its own row |
| MessageService.Entries | XhchatManage/backend/src/main/java/com/xinhao/backend/service/MessageService.java:37-47 | each record becomes one entry, in order |
| MessageService.FindPageWithUsername | XhchatManage/backend/src/main/java/com/xinhao/backend/service/MessageService.java:23-50 | the page keeps the query's count, the page number `Page` kept (1 for a number below 1) and the size; each entry repeats its record's columns and names the sender as the whole users table does (the placeholder 未知用户 for a missing user), although the lookup only went through the page's senders |
| MessageController.SenderFilter | XhchatManage/backend/src/main/java/com/xinhao/backend/controller/MessageController.java:32-38 | no filter exactly when the parameter is empty or "null"; an error exactly when it is given and its trimmed text is not a Java int; otherwise the parsed number |
| MessageController.SenderFilterRoundTrip | XhchatManage/backend/src/main/java/com/xinhao/backend/controller/MessageController.java:34 | the decimal rendering of any 32-bit id is read back as that id |
| MessageController.SenderConditionMatch | XhchatManage/backend/src/main/java/com/xinhao/backend/controller/MessageController.java:32-34 | the sender condition holds of a message exactly when no sender is asked for or the message is from that sender |
| MessageController.ContentConditionMatch | XhchatManage/backend/src/main/java/com/xinhao/backend/controller/MessageController.java:39-41 | the content condition holds exactly when no text is given or the content contains it |
| MessageController.ConditionsMatch | XhchatManage/backend/src/main/java/com/xinhao/backend/controller/MessageController.java:32-44 | the wrapper's conditions hold of a message exactly when it is live, from the sender asked for, and contains the text |
| MessageController.ListingSpec | XhchatManage/backend/src/main/java/com/xinhao/backend/controller/MessageController.java:43-49 | the page lists only such messages of the table, newest first; a page size of 0 lists none, and a negative size switches paging off and lists every one of them |
| MessageController.FindPage | XhchatManage/backend/src/main/java/com/xinhao/backend/controller/MessageController.java:22-54 | a sender id that is not a number is refused with 发送者ID必须是数字 before any query; a failing query is reported after 获取消息列表失败：; otherwise success with the page for the wrapper built from the parameters |
| UserMapper.CountZeroIffNoRow | XhchatManage/backend/src/main/java/com/xinhao/backend/mapper/UserMapper.java:27-28 | the count of a user's participant rows is 0 exactly when the user has no such row |
| UserMapper.FindUserConversationIds | XhchatManage/backend/src/main/java/com/xinhao/backend/mapper/UserMapper.java:30-31 | the ids are exactly the conversations the user owns |
| UserMapper.DeleteMessageReadsByConversationId | XhchatManage/backend/src/main/java/com/xinhao/backend/mapper/UserMapper.java:33-34 | removes exactly the read receipts of the conversation's messages and changes no other table |
| UserMapper.DeleteMessagesByConversationId | XhchatManage/backend/src/main/java/com/xinhao/backend/mapper/UserMapper.java:36-37 | removes exactly the conversation's messages and changes no other table |
| UserMapper.DeleteMessageReads | XhchatManage/backend/src/main/java/com/xinhao/backend/mapper/UserMapper.java:39-40 | removes exactly the receipts the user holds and changes no other table |
| UserMapper.DeleteMessages | XhchatManage/backend/src/main/java/com/xinhao/backend/mapper/UserMapper.java:42-43 | removes exactly the messages the user sent and changes no other table |
| UserMapper.DeleteConversationParticipantsByConversationId | XhchatManage/backend/src/main/java/com/xinhao/backend/mapper/UserMapper.java:45-46 | removes exactly the conversation's participant rows and changes no other table |
| UserMapper.DeleteConversationParticipants | XhchatManage/backend/src/main/java/com/xinhao/backend/mapper/UserMapper.java:48-49 | removes exactly the user's participant rows and changes no other table |
| UserMapper.DeleteConversationById | XhchatManage/backend/src/main/java/com/xinhao/backend/mapper/UserMapper.java:51-52 | removes exactly that conversation and changes no other table |
| UserMapper.DeleteFriendships | XhchatManage/backend/src/main/java/com/xinhao/backend/mapper/UserMapper.java:54-55 | removes exactly the friendship rows on either side of the user and changes no other table |
| UserMapper.DropOneMore | XhchatManage/backend/src/main/java/com/xinhao/backend/service/UserService.java:202-212 | dropping one more owned conversation after a set of them is dropping the larger set, so the loop's order does not matter |
| UserMapper.DropAllConsistent | XhchatManage/backend/src/main/java/com/xinhao/backend/service/UserService.java:202-212 | dropping owned conversations keeps the tables consistent |
| UserMapper.DeleteMessagesConsistent | XhchatManage/backend/src/main/java/com/xinhao/backend/mapper/UserMapper.java:42-43 | deleting a sender's messages keeps the tables consistent |
| UserMapper.DeleteConversationParticipantsConsistent | XhchatManage/backend/src/main/java/com/xinhao/backend/mapper/UserMapper.java:48-49 | deleting a user's participant rows keeps the tables consistent |
| UserService.InsertedRow | XhchatManage/backend/src/main/java/com/xinhao/backend/service/UserService.java:41-49 | a new user row has the posted username, nickname and address, is offline and is stamped now; the password and the other columns are NULL |
| UserService.Patched | XhchatManage/backend/src/main/java/com/xinhao/backend/service/UserService.java:61 | updateById never touches the password, which the entity does not bind; the presence columns and the creation time keep their values unless the form posts them |
| UserService.PatchIdempotent | XhchatManage/backend/src/main/java/com/xinhao/backend/service/UserService.java:61 | applying the same form twice is applying it once; a form with no field set changes nothing |
| UserService.PatchedColumns | XhchatManage/backend/src/main/java/com/xinhao/backend/service/UserService.java:61 | a posted column takes the posted value, a NULL one keeps the stored value; this includes is_online, last_seen and created_at |
| UserService.UpdateCheck | XhchatManage/backend/src/main/java/com/xinhao/backend/service/UserService.java:243-253 | an update passes exactly when the user exists and the username is unchanged or not taken; otherwise it fails with 用户不存在 or 用户名已存在 |
| UserService.SaveCheck | XhchatManage/backend/src/main/java/com/xinhao/backend/service/UserService.java:39-60 | an insert passes exactly when the username is not taken; an update is checked as updateUser checks it |
| UserService.AfterSave | XhchatManage/backend/src/main/java/com/xinhao/backend/service/UserService.java:39-62 | an insert adds the new row under the next id; an update patches the existing row and nothing else |
| UserService.SaveKeepsUsernamesUnique | XhchatManage/backend/src/main/java/com/xinhao/backend/service/UserService.java:43-60 | a save the checks let through keeps usernames unique and the tables consistent |
| UserService.SaveUser | XhchatManage/backend/src/main/java/com/xinhao/backend/service/UserService.java:39-67 | a failed check or a failing write is reported after 操作失败:  and changes nothing; otherwise true and the saved tables |
| UserService.UpdateUser | XhchatManage/backend/src/main/java/com/xinhao/backend/service/UserService.java:243-258 | a failed check or a failing write is reported after 修改失败:  and changes nothing; otherwise true and only that row patched |
| UserService.TodayCounter.constructor | XhchatManage/backend/src/main/java/com/xinhao/backend/service/UserService.java:32-34 | the counter starts uninitialised (-1) with no increase today |
| UserService.TodayCounter.GetTodayUsers | XhchatManage/backend/src/main/java/com/xinhao/backend/service/UserService.java:92-130 | on a new day or the first call the increase restarts at 0 from the current total; otherwise growth of the total since the last call is added to today's increase and the baseline follows the total |
| UserService.Merge | XhchatManage/backend/src/main/java/com/xinhao/backend/service/UserService.java:180 | merging a region adds that key and keeps the others |
| UserService.TallyCounts | XhchatManage/backend/src/main/java/com/xinhao/backend/service/UserService.java:177-182 | a region is a key exactly when some address starts with it, and its count is the number of such addresses |
| UserService.TallyEmpty | XhchatManage/backend/src/main/java/com/xinhao/backend/service/UserService.java:177-185 | the tally is empty exactly when no address is usable (NULL, "(Null)" or shorter than 2) |
| UserService.RegionDistribution | XhchatManage/backend/src/main/java/com/xinhao/backend/service/UserService.java:173-190 | the loop computes the distribution of the user list |
| UserService.DistributionCounts | XhchatManage/backend/src/main/java/com/xinhao/backend/service/UserService.java:173-190 | with some usable address, each region maps to the number of addresses starting with it; with none, the only entry is 未知 with the number of users |
| UserService.HasUserConversations | XhchatManage/backend/src/main/java/com/xinhao/backend/service/UserService.java:260-262 | true exactly when the user has some participant row |
| UserService.RemoveById | XhchatManage/backend/src/main/java/com/xinhao/backend/service/UserService.java:221 | removeById removes exactly that user and changes no other table |
| UserService.DeleteReadsOfMessagesFrom | XhchatManage/backend/src/main/java/com/xinhao/backend/service/UserService.java:196-198 | removes exactly the receipts of the user's messages and changes no other table |
| UserService.CascadeConsistent | XhchatManage/backend/src/main/java/com/xinhao/backend/service/UserService.java:194-225 | the corrected cascade keeps the tables consistent |
| UserService.CascadeAsWrittenConsistent | XhchatManage/backend/src/main/java/com/xinhao/backend/service/UserService.java:194-225 | the cascade as written keeps the tables consistent |
| UserService.CascadeRemovesUser | XhchatManage/backend/src/main/java/com/xinhao/backend/service/UserService.java:194-225 | after the cascade the user is gone, no message, receipt, participant row, friendship or owned conversation refers to them, and every other user is unchanged |
| UserService.CascadeKeepsOthers | XhchatManage/backend/src/main/java/com/xinhao/backend/service/UserService.java:196-215 | the cascade keeps exactly the messages, conversations and participant rows that are neither the user's nor in conversations the user owns |
| UserService.CascadeKeepsReadsResolved | XhchatManage/backend/src/main/java/com/xinhao/backend/service/UserService.java:196-198 | with the reads of the user's messages deleted too, every receipt still names an existing message |
| UserService.CascadeAsWrittenOrphansReads | XhchatManage/backend/src/main/java/com/xinhao/backend/service/UserService.java:196-198 | as written, a consistent database can be left with a receipt of a deleted message |
| UserService.CascadeDiffersOnlyInReads | XhchatManage/backend/src/main/java/com/xinhao/backend/service/UserService.java:196-198 | the corrected cascade differs from the written one only by deleting more receipts |
| UserService.DropOwnedConversations | XhchatManage/backend/src/main/java/com/xinhao/backend/service/UserService.java:201-212 | the loop over owned conversations leaves the tables with all of them dropped |
| UserService.DropConversationStep | XhchatManage/backend/src/main/java/com/xinhao/backend/service/UserService.java:205-211 | one iteration deletes the conversation's receipts, messages, participants and row |
| UserService.RemoveUserById | XhchatManage/backend/src/main/java/com/xinhao/backend/service/UserService.java:193-225 | a failing statement is reported after 删除失败:  and the transaction leaves the tables unchanged; otherwise the result says whether the user existed and the tables are the cascade as written |
| UserService.FinishRemoval | XhchatManage/backend/src/main/java/com/xinhao/backend/service/UserService.java:214-224 | the last steps remove the user's participant rows, friendships and row, or roll back to the snapshot |
| UserService.RemoveUserAndReads | XhchatManage/backend/src/main/java/com/xinhao/backend/service/UserService.java:193-225 | the corrected removal: as RemoveUserById but ending in the corrected cascade |
| UserService.CascadeUsers | XhchatManage/backend/src/main/java/com/xinhao/backend/service/UserService.java:221 | the cascade as written, and the corrected one, remove exactly one user |
| UserService.RunUnique | XhchatManage/backend/src/main/java/com/xinhao/backend/service/UserService.java:229-236 | the states a batch passes through are determined by the start state and the ids |
| UserService.BatchUsers | XhchatManage/backend/src/main/java/com/xinhao/backend/service/UserService.java:229-236 | after the whole batch exactly the users not listed remain |
| UserService.FirstRemovalsFind | XhchatManage/backend/src/main/java/com/xinhao/backend/service/UserService.java:231-236 | each of the first n removals finds its user exactly when those ids are distinct and all existed at the start |
| UserService.BatchSucceedsIff | XhchatManage/backend/src/main/java/com/xinhao/backend/service/UserService.java:229-241 | the batch succeeds exactly when the ids are distinct and all exist |
| UserService.RepeatedIdFailsBatch | XhchatManage/backend/src/main/java/com/xinhao/backend/service/UserService.java:231-236 | an id listed twice makes the second removal find nothing, so the batch fails |
| UserService.RemoveAt | XhchatManage/backend/src/main/java/com/xinhao/backend/service/UserService.java:231-236 | one iteration removes the next user with `removeUserById` as written, or ends the batch with failure when the user is missing or the statement fails |
| UserService.RollbackBatch | XhchatManage/backend/src/main/java/com/xinhao/backend/service/UserService.java:238-240 | a failed batch is reported after 批量删除失败:  and the tables are back to the snapshot |
| UserService.RemoveUserByIds | XhchatManage/backend/src/main/java/com/xinhao/backend/service/UserService.java:227-241 | each removal is `removeUserById` as written; success exactly when every removal finds its user and none fails, and then the tables are the end of that run; otherwise the tables are unchanged and the error starts with 批量删除失败:  |
| UserController.Respond | XhchatManage/backend/src/main/java/com/xinhao/backend/controller/UserController.java:30-33 | a response carries no data |
| UserController.RespondSuccessIff | XhchatManage/backend/src/main/java/com/xinhao/backend/controller/UserController.java:27-35 | the response is a success exactly when the service returned true; an exception's message is passed on; false gives the refusal text |
| UserController.Save | XhchatManage/backend/src/main/java/com/xinhao/backend/controller/UserController.java:27-35 | success exactly when the save check passes and the write goes through, then the saved tables; otherwise a 500 whose message starts with 操作失败:  and no change |
| UserController.Delete | XhchatManage/backend/src/main/java/com/xinhao/backend/controller/UserController.java:42-53 | a missing id gives ID不能为空; a failing statement gives 删除失败:  and its cause, and no change; otherwise `removeUserById` as written runs (leaving other users' reads of the removed messages) and the response is a success exactly when the user existed, else 删除失败 |
| UserController.DeleteBatch | XhchatManage/backend/src/main/java/com/xinhao/backend/controller/UserController.java:55-66 | a missing or empty list gives ID列表不能为空; otherwise success exactly when the batch of removals as written succeeds, else a 500 after 批量删除失败:  and no change |
| UserController.Update | XhchatManage/backend/src/main/java/com/xinhao/backend/controller/UserController.java:152-163 | a missing id gives 用户ID不能为空; otherwise success exactly when the update check passes and the write goes through, and only that row is patched |
| UserController.Records | XhchatManage/backend/src/main/java/com/xinhao/backend/controller/UserController.java:98 | the users table read in primary-key order: exactly the rows with ids in range, ascending |
| UserController.RecordsWhere | XhchatManage/backend/src/main/java/com/xinhao/backend/controller/UserController.java:98 | exactly the records meeting the conditions, without repeats when the input has none |
| UserController.Views | XhchatManage/backend/src/main/java/com/xinhao/backend/entity/User.java:17-18 | each record is serialised once, in order, without its password |
| UserController.SelectUsers | XhchatManage/backend/src/main/java/com/xinhao/backend/controller/UserController.java:98 | the page reports the page number `Page` kept (1 for a number below 1) and the size; the count of selected rows when paging is on, 0 for a negative size; and lists only views of selected rows |
| UserController.LikeIfGivenMatches | XhchatManage/backend/src/main/java/com/xinhao/backend/controller/UserController.java:80-94 | one optional like holds exactly when the text is empty or the column contains it (NULL contains nothing) |
| UserController.UserConditionsMatch | XhchatManage/backend/src/main/java/com/xinhao/backend/controller/UserController.java:80-94 | the five optional likes hold exactly when each given text is contained in its column |
| UserController.SortedRecordsMatch | XhchatManage/backend/src/main/java/com/xinhao/backend/controller/UserController.java:80-98 | every selected record is a stored row that matches the filters |
| UserController.PageIdsDecrease | XhchatManage/backend/src/main/java/com/xinhao/backend/controller/UserController.java:96 | ORDER BY id DESC: on a page the ids strictly decrease |
| UserController.AllMatchingListed | XhchatManage/backend/src/main/java/com/xinhao/backend/controller/UserController.java:80-98 | every stored user that matches the filters is selected |
| UserController.ListedUsersMatch | XhchatManage/backend/src/main/java/com/xinhao/backend/controller/UserController.java:77-99 | every listed user is the view of a stored user that matches the filters |
| UserController.ListedIdsDecrease | XhchatManage/backend/src/main/java/com/xinhao/backend/controller/UserController.java:96-98 | the listed ids strictly decrease |
| UserController.UnpagedListsAll | XhchatManage/backend/src/main/java/com/xinhao/backend/controller/UserController.java:77-98 | with a negative page size, which switches paging off, every matching user is listed |
| UserController.UserListingSpec | XhchatManage/backend/src/main/java/com/xinhao/backend/controller/UserController.java:68-105 | the page lists only matching users, newest id first; a page size of 0 lists nobody, and a negative size lists every matching user |
| UserController.SearchWrapper | XhchatManage/backend/src/main/java/com/xinhao/backend/controller/UserController.java:78-96 | the wrapper built one call at a time holds the five optional likes in order and orders by id descending |
| UserController.FindPage | XhchatManage/backend/src/main/java/com/xinhao/backend/controller/UserController.java:68-105 | a failing query is reported with its message; otherwise success with the page of the wrapper's selection |
| MessageModel.KindOrText | XhChat/server/models/Message.js:4 | a missing type defaults to "text", a given one is kept |
| MessageModel.Create | XhChat/server/models/Message.js:4-29 | success exactly when the conversation exists and both statements go through; then the new id is the next message id, the row is appended and the conversation's updated_at is bumped; on failure no table changes (only the AUTO_INCREMENT counter may advance) |
| MessageModel.InConversation | XhChat/server/models/Message.js:31-41 | exactly the messages of the conversation whose sender has a user row (the inner JOIN), recalled ones included |
| MessageModel.ByConversation | XhChat/server/models/Message.js:31-41 | getByConversationId lists exactly those messages, ordered by created_at ascending |
| MessageModel.FindById | XhChat/server/models/Message.js:43-49 | a found message has that id and is not recalled; nothing is found only when every row with that id is recalled |
| MessageModel.FindByIdUnique | XhChat/server/models/Message.js:43-49 | with increasing ids a live message with the id is the one found |
| MessageModel.MarkRead | XhChat/server/models/Message.js:51-57 | the upsert adds the (message, user) key or refreshes its time and changes no other receipt |
| MessageModel.MarkAsRead | XhChat/server/models/Message.js:51-57 | markAsRead applies the upsert to the receipts table only |
| MessageModel.MarkReadIdempotent | XhChat/server/models/Message.js:51-57 | marking twice leaves the same receipt keys as marking once; the later time wins |
| MessageModel.CountUnread | XhChat/server/models/Message.js:59-71 | the unread count is at most the number of messages, and 0 exactly when none is unread |
| MessageModel.CountUnreadAppend | XhChat/server/models/Message.js:59-71 | a further message adds 1 to the count exactly when it is unread (same conversation, other sender, live, no receipt) |
| MessageModel.UnreadAfterCreate | XhChat/server/models/Message.js:59-71 | a new message raises a member's unread count by 1 exactly when someone else sent it |
| MessageModel.UnreadAfterMarkRead | XhChat/server/models/Message.js:51-71 | marking a message read lowers the reader's count by 1 exactly when it was unread for them, and leaves everyone else's count alone |
| MessageModel.AllReadNoneUnread | XhChat/server/models/Message.js:59-71 | with a receipt for every message the count is 0 |
| MessageModel.SoftDelete | XhChat/server/models/Message.js:73-78 | recalling sets is_deleted on the rows with that id and keeps every row in place |
| MessageModel.DeleteMessage | XhChat/server/models/Message.js:73-78 | deleteMessage changes only the messages table, by the soft delete |
| MessageModel.DeleteHidesMessage | XhChat/server/models/Message.js:43-49 | after a recall findById finds nothing, while the history still lists the recalled row |
| MessageModel.UnreadAfterDelete | XhChat/server/models/Message.js:59-78 | a recall never raises an unread count, and lowers it when the message was unread |
| MessageModel.LatestIn | XhChat/server/models/Message.js:125-130 | the chosen message belongs to the conversation and is at least as recent as any other of its messages; none only when it has none |
| MessageModel.SummariesOf | XhChat/server/models/Message.js:112-136 | exactly the summaries of the given conversations that exist |
| MessageModel.GetConversations | XhChat/server/models/Message.js:112-136 | exactly the conversations the user takes part in, each summarised, latest message time (or creation time) first |
| MessageModel.SummaryOfEmptyConversation | XhChat/server/models/Message.js:120-122 | a conversation without messages shows "" and "text" and its creation time |
| MessageModel.SummaryTimeIsLatest | XhChat/server/models/Message.js:122-132 | no message of the conversation is later than its summary time |
| ConversationModel.AddParticipant | XhChat/server/models/Conversation.js:12-22 | the insert succeeds exactly when the conversation exists and the pair is new, adding exactly that pair; otherwise nothing changes and the error is passed on |
| ConversationModel.RemoveParticipant | XhChat/server/models/Conversation.js:112-117 | removes exactly the (conversation, user) pair |
| ConversationModel.AddThenIsParticipant | XhChat/server/models/Conversation.js:12-22 | after adding a pair, isParticipant holds of that pair and of exactly the pairs it held of before |
| ConversationModel.RemoveThenNotParticipant | XhChat/server/models/Conversation.js:112-130 | after removing a pair, isParticipant fails for it and is unchanged for every other pair |
| ConversationModel.SetRole | XhChat/server/models/Conversation.js:143-149 | the role upsert writes the role for the pair, whether or not a row existed |
| ConversationModel.GetRole | XhChat/server/models/Conversation.js:151-157 | no role row reads as "member"; the role read is never empty |
| ConversationModel.GetRoleAfterSetRole | XhChat/server/models/Conversation.js:143-157 | after setRole the pair reads the role set (an empty role reads as "member") and every other pair reads as before |
| ConversationModel.GetAdmins | XhChat/server/models/Conversation.js:159-167 | admins are existing users |
| ConversationModel.GetAdminsExactly | XhChat/server/models/Conversation.js:159-167 | a user is listed exactly when the user exists and its role is owner or admin |
| ConversationModel.JoinedMembers | XhChat/server/models/Conversation.js:84-86 | the members are exactly the participants that have a user row |
| ConversationModel.FindById | XhChat/server/models/Conversation.js:79-92 | a conversation is found exactly when it exists and has a member with a user row |
| ConversationModel.FirstOther | XhChat/server/models/Conversation.js:70 | the name found is a member's name other than one's own; none only when every name is one's own |
| ConversationModel.FirstOtherRemoveAll | XhChat/server/models/Conversation.js:70 | dropping one's own name does not change which other name is found |
| ConversationModel.FirstOtherDistinct | XhChat/server/models/Conversation.js:41 | GROUP_CONCAT(DISTINCT) does not change which other name is found |
| ConversationModel.DisplayNameOfPrivate | XhChat/server/models/Conversation.js:67-72 | a private conversation is shown under the first member name other than one's own, else 未知用户 |
| ConversationModel.DescribeAll | XhChat/server/models/Conversation.js:38-72 | exactly the given conversations that exist and have members are described |
| ConversationModel.GetUserConversations | XhChat/server/models/Conversation.js:24-77 | an unknown user gives the error 用户不存在; otherwise exactly the user's conversations, described, latest live message (or creation) first |
| ConversationModel.UserConversationsSkipRecalled | XhChat/server/models/Conversation.js:49-56 | the last message shown belongs to the conversation and is never a recalled one |
| UserModel.NewUser | XhChat/server/models/User.js:5-10 | a registered user's nickname is the username; the user starts offline and never seen |
| UserModel.Create | XhChat/server/models/User.js:5-12 | the new row goes under the next user id, which is returned, and no other table changes |
| UserModel.FirstWhere | XhChat/server/models/User.js:14-23 | the first matching id in range, or none when nothing in range matches |
| UserModel.AllWhere | XhChat/server/models/User.js:120-127 | exactly the matching ids in range, ascending |
| UserModel.View | XhChat/server/models/User.js:30-32 | the view has the user's id, username and stored hash (NULL when none) and the nickname falls back to the username |
| UserModel.FindById | XhChat/server/models/User.js:25-34 | found exactly when the user exists; its nickname falls back to the username |
| UserModel.FindByUsername | XhChat/server/models/User.js:14-23 | a found user has that username, its stored hash and the nickname fallback; none exactly when no user has it |
| UserModel.FindByPhone | XhChat/server/models/User.js:168-174 | a found user has that phone; none exactly when no user has it |
| UserModel.FindByEmail | XhChat/server/models/User.js:176-182 | a found user has that email; none exactly when no user has it |
| UserModel.NicknameNeverEmpty | XhChat/server/models/User.js:30-32 | a user with a username is never shown with an empty nickname |
| UserModel.Hits | XhChat/server/models/User.js:36-48 | each hit carries the id, username and avatar of its row |
| UserModel.SearchUsers | XhChat/server/models/User.js:36-48 | a user is found exactly when the username contains the query, it is not the caller and the caller has not befriended it |
| UserModel.SearchExcludesSelfAndFriends | XhChat/server/models/User.js:40-45 | a hit is never the caller nor one of the caller's friends |
| UserModel.Friends | XhChat/server/models/User.js:129-132 | each friend row gets displayName = nickname or username |
| UserModel.FriendIds | XhChat/server/models/User.js:120-127 | exactly the caller's friends that have a user row |
| UserModel.GetFriends | XhChat/server/models/User.js:120-133 | exactly one entry per existing friend, with displayName = nickname or username |
| UserModel.PrivateBetween | XhChat/server/models/User.js:64-73 | a found conversation is private with both users as participants; none only when no such conversation exists |
| UserModel.AddFriend | XhChat/server/models/User.js:51-118 | existing friends with a private conversation get that conversation back and nothing changes; otherwise missing friendship rows and a new private conversation with both users are inserted, and any failure rolls all inserts back |
| UserModel.InsertFriendRows | XhChat/server/models/User.js:81-91 | both directed friendship rows are inserted, or on a duplicate or failure the error is passed on |
| UserModel.CreatePrivate | XhChat/server/models/User.js:93-108 | the new conversation is private, named 私聊, and has exactly the two users as participants |
| UserModel.AddFriendThenReuse | XhChat/server/models/User.js:62-79 | after a successful addFriend, a second one finds the conversation and reuses it |
| UserModel.AddFriendSymmetric | XhChat/server/models/User.js:81-91 | after the inserts each is the other's friend and no other pair is added |
| UserModel.ApplyOne | XhChat/server/models/User.js:145-151 | a profile update never touches username, password, phone, email or address |
| UserModel.ApplyAll | XhChat/server/models/User.js:141-154 | the whole update keeps those columns and the presence and creation columns |
| UserModel.UpdateProfile | XhChat/server/models/User.js:135-166 | an empty update issues no statement; otherwise a NaN age or a store error fails it, nothing changes and the error is passed on, and on success the user's row gets every update |
| UserModel.ApplyAllAppend | XhChat/server/models/User.js:145-148 | the fields are applied in order, one after another |
| UserModel.NicknameAfterUpdate | XhChat/server/models/User.js:145-151 | a non-empty nickname update is what the user is then shown as |
| UserModel.NicknameUntouched | XhChat/server/models/User.js:145-151 | an update without a nickname field keeps the nickname |
| UserStatus.WithPresence | XhChat/server/models/UserStatus.js:6 | only the user's row changes; the set of users stays the same |
| UserStatus.SetOnline | XhChat/server/models/UserStatus.js:4-9 | is_online becomes 1 and last_seen now for that user only |
| UserStatus.SetOffline | XhChat/server/models/UserStatus.js:11-16 | is_online becomes 0 and last_seen now for that user only |
| UserStatus.GetStatus | XhChat/server/models/UserStatus.js:18-24 | a status exactly when the user exists, with its current is_online and last_seen |
| UserStatus.StatusAfterUpdate | XhChat/server/models/UserStatus.js:4-24 | after a presence update getStatus reports the new presence for that user and the old one for every other user |
| UserStatus.PresenceKeepsConsistent | XhChat/server/models/UserStatus.js:4-16 | a presence update keeps the tables consistent |
| UserStatus.OnlineThenOffline | XhChat/server/models/UserStatus.js:4-16 | online then offline leaves the row as offline with the later time |
| UserSettings.GetSettings | XhChat/server/models/UserSettings.js:4-10 | an existing row is returned and nothing is inserted; otherwise the default row is inserted and returned, or on failure nothing changes |
| UserSettings.CreateDefaultSettings | XhChat/server/models/UserSettings.js:12-18 | the default row is inserted and read back; a second insert for the user is a duplicate-key error |
| UserSettings.Updated | XhChat/server/models/UserSettings.js:20-24 | exactly the given fields change; the others keep their values |
| UserSettings.UpdateSettings | XhChat/server/models/UserSettings.js:20-28 | with keys taken as plain column names, an empty field list or one naming a non-column is an SQL error and changes nothing; otherwise the given fields change and the fresh row is returned |
| UserSettings.UpdateReadBack | XhChat/server/models/UserSettings.js:20-28 | reading back gives each new value and every other field as before |
| MessagesRoute.History | XhChat/server/routes/messages.js:10-27 | a non-participant gets 403 and nothing else; a participant gets exactly the conversation's messages whose sender still exists, recalled ones included, ordered by creation time |
| MessagesRoute.HistoryKeepsRecalled | XhChat/server/routes/messages.js:21-22 | every message of the conversation whose sender exists, including a soft-deleted one, appears in the history a participant reads |
| MessagesRoute.UploadUrl | XhChat/server/routes/messages.js:30-57 | a missing file is answered 400 with the audio or file message; a received file is answered with a URL |
| MessagesRoute.UploadUrlNamesStoredFile | XhChat/server/routes/messages.js:30-57 | the URL answered for an accepted upload is the folder and the generated name the upload middleware stored it under |
| MessagesRoute.RecallCheck | XhChat/server/routes/messages.js:72-97 | 404 exactly when no live message has the id; a success means some message of the caller's own, sent within the recall window, has the id |
| MessagesRoute.Recall | XhChat/server/routes/messages.js:72-97 | answers what RecallCheck decides; a success soft-deletes that message and changes nothing else, a refusal changes nothing |
| MessagesRoute.RecallAfterDeleteNotFound | XhChat/server/routes/messages.js:74-78 | recalling a message a second time finds nothing and is answered 404 |
| MessagesRoute.RecallOwnRecentAccepted | XhChat/server/routes/messages.js:80-96 | the sender recalling a live message inside the two-minute window is accepted |
| MessagesRoute.RecallOnlyOwnRecent | XhChat/server/routes/messages.js:80-90 | someone else's message is refused with 403, an own message past the window with 400 |
| MessagesRoute.Unread | XhChat/server/routes/messages.js:111-119 | the unread count never exceeds the number of messages and is zero exactly when no message of the conversation is unread for the caller |
| MessagesRoute.UnreadZeroAfterReadingAll | XhChat/server/routes/messages.js:111-119 | once the caller has a read receipt for every message, the count answered is 0 |
| ConversationsRoute.Pairs | XhChat/server/routes/conversations.js:39-44 | one participant row per member id, in order, each naming the new conversation |
| ConversationsRoute.InsertEach | XhChat/server/routes/conversations.js:39-44 | the loop adds the rows of the members it reached, in order; it finishes without error exactly when no member row was a duplicate and no insert failed, and then every member was added |
| ConversationsRoute.CreateGroup | XhChat/server/routes/conversations.js:14-58 | a missing name or empty member list is 400 and changes nothing; otherwise the group is created (201) exactly when creator and members are distinct and no insert fails, and the answer is the new conversation |
| ConversationsRoute.GroupMembership | XhChat/server/routes/conversations.js:26-44 | the new conversation is a group owned by the creator, and its participants are exactly the creator and the listed members |
| ConversationsRoute.AfterSetRole | XhChat/server/routes/conversations.js:121-136 | the state changes only when the requester is an owner or admin of the conversation, and only the target's role entry |
| ConversationsRoute.SetMemberRole | XhChat/server/routes/conversations.js:121-136 | a requester without the owner or admin role gets 403 and changes nothing; otherwise the role is written, and a missing role fails with 500 |
| ConversationsRoute.RolesNeverSetInNewGroup | XhChat/server/routes/conversations.js:26-44 | in a group created as written nobody holds a role, so any sequence of set-role requests leaves it unchanged |
| ConversationsRoute.RolesStayEmpty | XhChat/server/routes/conversations.js:126-129 | while a conversation has no role entries, every sequence of set-role requests on it is refused |
| ConversationsRoute.CreateGroupWithOwner | XhChat/server/routes/conversations.js:14-58 | group creation that also records the creator's owner role; same refusals and answer as CreateGroup |
| ConversationsRoute.OwnerMaySetRole | XhChat/server/routes/conversations.js:121-136 | in a group created with the owner role, the creator may set roles, and a member made admin may then set roles too |
| ConversationsRoute.MayRemoveOnlyOwner | XhChat/server/routes/conversations.js:86-94 | removal is permitted exactly when the requester is the conversation's owner_id and the participant query finds someone |
| ConversationsRoute.CreatorMayRemove | XhChat/server/routes/conversations.js:86-94 | the creator of a group may remove its members |
| ConversationsRoute.RemoveMember | XhChat/server/routes/conversations.js:86-102 | the owner removes exactly the target's participant row; anyone else gets 403 and changes nothing |
| ConversationsRoute.AddMembers | XhChat/server/routes/conversations.js:105-118 | the members reached are added in order; success exactly when no row was a duplicate and no insert failed, and then all were added; a missing list is 500 and changes nothing |
| UsersRoute.Search | XhChat/server/routes/users.js:10-25 | a missing or blank query gives an empty list; every hit's username contains the trimmed query and is neither the caller nor a friend |
| UsersRoute.SearchIgnoresSurroundingSpace | XhChat/server/routes/users.js:14-18 | a query made only of spaces finds nothing, and surrounding white space does not change the hits |
| UsersRoute.AddFriend | XhChat/server/routes/users.js:39-69 | adding oneself is 400 and changes nothing, an unknown id 404 and changes nothing; a success records the friendship and answers a private conversation both belong to; the other refusals are the duplicate and failure messages |
| UsersRoute.NicknameEntry | XhChat/server/routes/users.js:82-84 | a given nickname becomes a nickname update |
| UsersRoute.GenderEntry | XhChat/server/routes/users.js:85-87 | a given gender becomes a gender update |
| UsersRoute.AgeEntry | XhChat/server/routes/users.js:88-90 | exactly a truthy age gives an entry; it carries the number parseInt reads, or is the NaN entry exactly when parseInt reads none |
| UsersRoute.AvatarEntry | XhChat/server/routes/users.js:93-96 | a received avatar becomes an avatar update |
| UsersRoute.Present | XhChat/server/routes/users.js:80-96 | an update is listed exactly when its field was given |
| UsersRoute.ProfileUpdates | XhChat/server/routes/users.js:80-96 | at most four updates, a non-empty nickname comes first, and an unreadable age alone makes the object non-empty |
| UsersRoute.ProfileUpdatesEntries | XhChat/server/routes/users.js:80-96 | an update is in the list exactly when one of the four fields produced it |
| UsersRoute.ProfileUpdatesHold | XhChat/server/routes/users.js:80-96 | a nickname or gender update is present exactly when the field is non-empty, an age update exactly when the field is non-empty and parses to that age, the NaN age exactly when it is non-empty and does not parse, an avatar update exactly when a file was received, with its /uploads/avatars path |
| UsersRoute.UpdateProfile | XhChat/server/routes/users.js:72-108 | succeeds exactly when the age is absent or readable and either there is nothing to write or the write does not fail, so an unreadable age alone still answers 500; a success applies the updates to the caller's row only and answers the updated user; a failure is 500 |
| UsersRoute.LoneUnreadableAge | XhChat/server/routes/users.js:80-89 | an age of "abc" with no other field gives the updates object `{ age: NaN }`, which is not empty |
| UsersRoute.NicknameShownAfterUpdate | XhChat/server/routes/users.js:82-84 | after a profile update with a nickname, the name shown for the user is that nickname |
| UsersRoute.NicknameComesFirst | XhChat/server/routes/users.js:80-96 | with a nickname, the updates are the nickname update followed by the others |
| UsersRoute.OtherUpdatesKeepNickname | XhChat/server/routes/users.js:85-96 | no update other than the first touches the nickname |
| UsersRoute.AvatarPathNamesStoredFile | XhChat/server/routes/users.js:93-96 | the avatar path recorded is the folder and generated name the upload middleware stored the image under |
| AuthRoute.RegisterCheck | XhChat/server/routes/auth.js:9-39 | registration passes the checks exactly when every field is given and username, phone and email are all unused; otherwise it is refused with 400 or 500 |
| AuthRoute.RegisterCheckOrder | XhChat/server/routes/auth.js:13-29 | a taken username is reported first, then a taken phone, then a taken email |
| AuthRoute.Register | XhChat/server/routes/auth.js:9-39 | a refused registration changes nothing; an accepted one answers 201 and adds the user |
| AuthRoute.AfterRegistration | XhChat/server/routes/auth.js:32 | exactly one new user under a fresh id, with the username and the password hash, and every existing user unchanged |
| AuthRoute.RegisterTwiceRefused | XhChat/server/routes/auth.js:13-17 | registering the same form again is refused because the username is taken |
| AuthRoute.Login | XhChat/server/routes/auth.js:42-86 | empty credentials are 400; a user whose stored hash is NULL makes the comparison throw, and that gives the 500 登录失败，请稍后重试 exactly then; a success names an existing user with that username whose hash matches the password, a token for that user, and the nickname falling back to the username |
| AuthRoute.AdminCreatedUserCannotLogin | XhChat/server/routes/auth.js:51-85 | a user the admin backend inserts has no password hash, so any login as that user, with any non-empty password, is the 500 answer |
| AuthRoute.UnknownUserLikeWrongPassword | XhChat/server/routes/auth.js:51-60 | an unknown username and a wrong password get the same refusal |
| AuthRoute.LoginAfterRegister | XhChat/server/routes/auth.js:32-81 | after registering, logging in with the same credentials succeeds with a token for the new id and shows the username as nickname |
| Upload.LastDot | XhChat/server/middlewares/upload.js:17 | the position found holds a dot and no dot follows it; none is found only when the name has no dot |
| Upload.Extname | XhChat/server/middlewares/upload.js:17 | the extension is empty or a single dot followed by no other dot, and is a proper suffix of the name, as path.extname gives it |
| Upload.GeneratedPrefixDotless | XhChat/server/middlewares/upload.js:18-19 | the field name, time stamp and random suffix of a stored name contain no dot |
| Upload.ExtnameOfStem | XhChat/server/middlewares/upload.js:17-19 | appending an extension to a dotless stem of two or more characters gives back that extension |
| Upload.StoredNameKeepsExtension | XhChat/server/middlewares/upload.js:16-20 | the stored file name carries the original name's extension, lower-cased |
| Upload.FileFilterAccepts | XhChat/server/middlewares/upload.js:23-36 | a file is accepted exactly when an avatar is an image and an audio file is audio; other fields take anything |
| Upload.Receive | XhChat/server/middlewares/upload.js:4-44 | accepted exactly when the filter accepts it and it is at most 10 MB; avatars go to uploads/avatars, audio to uploads/audio, everything else to uploads/files, under a name starting with the field name; a filter refusal is passed on |
| Gateway.PrivateRoom | XhChat/server/server.js:82 | a user's private room name starts with user_ and carries the id |
| Gateway.PrivateRoomInjective | XhChat/server/server.js:82 | two users never share a private room |
| Gateway.Recipients | XhChat/server/server.js:85-91 | an emit reaches exactly the connected sockets it addresses: the socket itself, the members of a room, or everyone but the sender for a broadcast |
| Gateway.FanOut | XhChat/server/server.js:136-142 | one emit per listed participant |
| Gateway.Count | XhChat/server/server.js:136-161 | the number of times an emit occurs is bounded by the output and is zero exactly when it does not occur |
| Gateway.CountAppend | XhChat/server/server.js:136-161 | counts over two runs of emits add up |
| Gateway.FanOutOncePerMember | XhChat/server/server.js:136-142 | with distinct participants, each participant's private room receives the event exactly once and nobody else's does |
| Gateway.FanOutAppend | XhChat/server/server.js:136-142 | one more participant adds exactly one emit, to its private room, at the end |
| Gateway.AfterJoin | XhChat/server/server.js:170-175 | a truthy room id adds its string form to the socket's rooms; a falsy one changes nothing |
| Gateway.AfterLeave | XhChat/server/server.js:178-181 | leaving removes the named room and nothing else |
| Gateway.JoinRoomReachesPrivateRoom | XhChat/server/server.js:170-175 | any connected socket that joins another user's private room name then receives that user's private messages |
| Gateway.AfterJoinChecked | XhChat/server/server.js:170-175 | the checked join adds a room only for an authenticated user joining a conversation id they take part in |
| Gateway.JoinCheckedKeepsPrivateRooms | XhChat/server/server.js:170-175 | the checked join never puts a socket into a private room it was not already in |
| Gateway.GroupNotices | XhChat/server/server.js:189-196 | at most one notice per listed participant |
| Gateway.GroupNoticesSkipSender | XhChat/server/server.js:190 | the creator of the group is not sent a new_conversation notice |
| Gateway.GroupNoticesMembers | XhChat/server/server.js:189-196 | a notice goes to a participant's private room exactly when the participant is listed and is not the creator |
| Gateway.Stored | XhChat/server/server.js:112-148 | sending appends exactly one message row with the next id, and the conversation's updated_at becomes the current time |
| Gateway.Server.constructor | XhChat/server/server.js:59 | a new server has no sockets and has emitted nothing |
| Gateway.Server.Connect | XhChat/server/server.js:59-60 | a new socket is connected, unauthenticated and in no room |
| Gateway.Server.Reject | XhChat/server/server.js:89-93 | the socket is told authentication failed, with the error, and is disconnected from all rooms |
| Gateway.Server.Authenticate | XhChat/server/server.js:62-94 | a bad token or an unknown user rejects and disconnects the socket; a known user is attached to the socket, joins their private room, gets authenticated, is set online and broadcast as online to the other sockets |
| Gateway.Server.EmitToEach | XhChat/server/server.js:136-142 | emits the event to every listed participant's private room, in order |
| Gateway.Server.SendMessage | XhChat/server/server.js:97-167 | an unauthenticated socket or a non-member gets message_error and nothing is stored; a member's message is stored and fanned out |
| Gateway.Server.SendAsMember | XhChat/server/server.js:103-161 | a failed insert reports one message_error; otherwise the message is stored, every participant receives receive_message and then conversation_updated |
| Gateway.Server.Deliver | XhChat/server/server.js:130-161 | receive_message to every participant, then the updated_at refresh, then conversation_updated to every participant, or a message_error if the refresh fails |
| Gateway.Server.JoinRoom | XhChat/server/server.js:170-175 | the join as written; it throws (logging the missing user) exactly when an unauthenticated socket joins a truthy room |
| Gateway.Server.JoinRoomChecked | XhChat/server/server.js:170-175 | the join restricted to the caller's own conversations |
| Gateway.Server.LeaveRoom | XhChat/server/server.js:178-181 | leaves the room; it throws exactly when the socket is unauthenticated |
| Gateway.Server.GroupCreated | XhChat/server/server.js:184-200 | an authenticated socket's notice goes to every listed participant except itself; otherwise nothing is emitted |
| Gateway.FanOutLoop | XhChat/server/server.js:136-142 | the forEach produces exactly the fan-out |
| Gateway.GroupNoticesLoop | XhChat/server/server.js:189-196 | the forEach produces exactly the group notices |
| Gateway.GroupNoticesAppend | XhChat/server/server.js:189-196 | one more participant adds its notice at the end, unless it is the creator |
| Gateway.SendFanOut | XhChat/server/server.js:136-161 | with distinct participants, each participant receives the message and the conversation update exactly once, and non-participants receive neither |
| Gateway.FanOutOnly | XhChat/server/server.js:136-142 | a fan-out carries no other event |
| Gateway.FanOutCarries | XhChat/server/server.js:136-142 | the i-th emit goes to the i-th participant's private room |
| Gateway.SendOrder | XhChat/server/server.js:136-161 | no conversation_updated emit comes before a receive_message emit |
| Gateway.FanOutEvent | XhChat/server/server.js:136-142 | every emit of a fan-out carries the same event |
| ChatClient.AppendIfNew | XhChat/client/src/pages/Chat.js:105-116 | the list only grows, by one at most, at its end; it grows exactly when the message belongs to the open conversation and its id is not yet listed, and then by that message |
| ChatClient.AppendIfNewIdempotent | XhChat/client/src/pages/Chat.js:105-116 | receiving the same message twice leaves the list as receiving it once |
| ChatClient.AppendIfNewKeepsUniqueIds | XhChat/client/src/pages/Chat.js:107-113 | a list without repeated ids keeps that property |
| ChatClient.WithPreview | XhChat/client/src/pages/Chat.js:120-130 | same entries in the same order; only the entries of the conversation get the new last message, type and time |
| ChatClient.Others | XhChat/client/src/pages/Chat.js:134 | exactly the entries of other conversations, no more of them than before |
| ChatClient.Find | XhChat/client/src/pages/Chat.js:132 | an entry is found exactly when the conversation is listed, and it is a listed entry with that id |
| ChatClient.OthersOfWithPreview | XhChat/client/src/pages/Chat.js:119-138 | updating the preview does not change the other conversations' entries |
| ChatClient.OthersLength | XhChat/client/src/pages/Chat.js:134 | with unique ids, removing a listed conversation shortens the list by one |
| ChatClient.OthersNotListed | XhChat/client/src/pages/Chat.js:134 | removing an unlisted conversation changes nothing |
| ChatClient.OthersUnique | XhChat/client/src/pages/Chat.js:134 | removing a conversation keeps ids unique |
| ChatClient.BumpMovesToFront | XhChat/client/src/pages/Chat.js:119-138 | a listed conversation moves to the front with the new preview and its own name, followed by the others in their old order; an unlisted one changes nothing |
| ChatClient.FindOfWithPreview | XhChat/client/src/pages/Chat.js:120-132 | the entry found after the update is the old entry with the new preview |
| ChatClient.BumpKeepsUniqueIds | XhChat/client/src/pages/Chat.js:119-138 | moving a conversation to the front keeps the list's length and unique ids |
| ChatClient.Increment | XhChat/client/src/pages/Chat.js:150-153 | the conversation's unread count goes up by one, every other count stays |
| ChatClient.Reset | XhChat/client/src/pages/Chat.js:272-275 | the conversation's unread count becomes zero, every other count stays |
| ChatClient.Toggle | XhChat/client/src/pages/Chat.js:1053-1059 | a friend is selected afterwards exactly when not selected before; nobody else changes |
| ChatClient.ToggleTwice | XhChat/client/src/pages/Chat.js:1053-1059 | selections stay free of duplicates, and selecting then unselecting restores the selection |
| ChatClient.RemoveAllKeepsNoDuplicates | XhChat/client/src/pages/Chat.js:1055 | filtering a friend out keeps the selection free of duplicates |
| ChatClient.RemoveAllAbsentLast | XhChat/client/src/pages/Chat.js:1055-1057 | unselecting the friend selected last gives back the earlier selection |
| ChatClient.GroupRequest | XhChat/client/src/pages/Chat.js:500-510 | no request is posted exactly when the trimmed name is empty or nobody is selected; a posted request carries the name and the selected members |
| ChatClient.GroupRequestPassesServerGuard | XhChat/client/src/pages/Chat.js:500-510 | every request the client posts passes the server's empty-name and empty-members check |
| ChatClient.FileTypeOfUpload | XhChat/client/src/pages/Chat.js:819-827 | the kind shown for an uploaded file URL is decided by the original name's extension, lower-cased |
| ChatClient.FileTypeOfUploadWithoutExtension | XhChat/client/src/pages/Chat.js:819-827 | an uploaded file whose original name has no extension is shown as other |
| ChatClient.KindOfPath | XhChat/client/src/pages/Chat.js:820-826 | a dotless URL, whose last piece is the whole path, is shown as other |
| ChatClient.Client.constructor | XhChat/client/src/pages/Chat.js:17-35 | the component starts with no conversations, none open, no messages, empty input, no counts, no selection and no socket |
| ChatClient.Client.OnAuthenticated | XhChat/client/src/pages/Chat.js:91-99 | a successful authentication makes the socket usable; nothing else changes |
| ChatClient.Client.OnConversationsLoaded | XhChat/client/src/pages/Chat.js:49-69 | the conversation list becomes the loaded list; nothing else changes |
| ChatClient.Client.OnReceiveMessage | XhChat/client/src/pages/Chat.js:101-156 | as written: the open conversation seen by the handler is the one captured when the socket was set up, so the message list never changes; the entry moves to the front; the count rises for every other user's message unless the list as last rendered has the message's conversation as its selected entry (listed and current) |
| ChatClient.Client.OnReceiveMessageLive | XhChat/client/src/pages/Chat.js:101-156 | reading the open conversation live: a new message of the open conversation is appended once, the entry moves to the front, and the count rises exactly for other users' messages in other conversations; the `selected`-class check changes nothing |
| ChatClient.Client.OnConversationUpdated | XhChat/client/src/pages/Chat.js:158-174 | the conversation's entry gets the new preview in place; nothing else changes |
| ChatClient.Client.OnNewConversation | XhChat/client/src/pages/Chat.js:194-213 | the fetched conversation is put in front; when the fetch fails the list is reloaded |
| ChatClient.Client.Open | XhChat/client/src/pages/Chat.js:234-299 | the conversation becomes open and active with zero unread; reopening it changes nothing else; opening a new one loads its history and joins its room when the socket is ready |
| ChatClient.Client.Type | XhChat/client/src/pages/Chat.js:982 | the input becomes the text typed; nothing else changes |
| ChatClient.Client.SendMessage | XhChat/client/src/pages/Chat.js:301-362 | blank input, no open conversation or no socket changes nothing; otherwise a temporary message with the trimmed text is appended, the input cleared, the conversation moved to the front and one send_message emitted; the message and the preview take their times from two separate clock readings |
| ChatClient.Client.ToggleFriend | XhChat/client/src/pages/Chat.js:1053-1059 | the selection is toggled for that friend; nothing else changes |
| ChatClient.Client.NameGroup | XhChat/client/src/pages/Chat.js:1041 | the group name becomes the text typed; nothing else changes |
| ChatClient.Client.CreateGroup | XhChat/client/src/pages/Chat.js:498-539 | posts the request the form allows; a created group is put in front; with a socket, group_created is emitted with the members and the creator, the form is cleared and the group opened with zero unread; without one the emit throws and the prepended group is the only change; nothing changes when nothing is posted or creation fails |
| RegisterForm.Rules | XhChat/client/src/pages/Register.js:50-107 | a field shows no error exactly when it is filled in and passes its rule, and shows at most one |
| RegisterForm.ConfirmErrors | XhChat/client/src/pages/Register.js:109-121 | the confirmation shows no error exactly when it is filled in and equals the password |
| RegisterForm.Errors | XhChat/client/src/pages/Register.js:50-127 | the form is clean exactly when username and address are given, the phone is a mainland mobile number, the email is valid, the password has at least six characters and the confirmation matches |
| RegisterForm.Submit | XhChat/client/src/pages/Register.js:14-33 | the form is posted exactly when it is clean, with every field as typed and the nickname set to the username |
| RegisterForm.SubmittedFormNotRefusedAsIncomplete | XhChat/client/src/pages/Register.js:14-24 | the server accepts every form the client posts, or refuses it only because the username, phone or email is taken |
| RegisterForm.MismatchBlocksSubmit | XhChat/client/src/pages/Register.js:113-119 | a filled-in confirmation that differs from the password shows the mismatch error and blocks the post |
| ProfileForm.BeforeUpload | XhChat/client/src/components/ProfileForm.js:82-92 | an avatar is accepted exactly when it is an image under 2 MB; each failed condition shows its own error |
| ProfileForm.AcceptedAvatarStored | XhChat/client/src/components/ProfileForm.js:82-92 | every avatar the form accepts also passes the server's upload filter and size limit and is stored under uploads/avatars |
| ProfileForm.InitialValues | XhChat/client/src/components/ProfileForm.js:104-108 | the form starts with the nickname or else the username, the gender or else male, the age or else 18, and no new avatar |
| ProfileForm.InitialNicknameShown | XhChat/client/src/components/ProfileForm.js:105 | the nickname the form starts with is the display name the server shows for the user |
| ProfileForm.Validate | XhChat/client/src/components/ProfileForm.js:148-154 | the form is submitted exactly when the nickname is filled in |
| ProfileForm.ClampAge | XhChat/client/src/components/ProfileForm.js:171 | the age input keeps a value in 1..120 and brings others to the nearest bound |
| ProfileForm.OnFinish | XhChat/client/src/components/ProfileForm.js:14-34 | as written: a cleared age makes the submission throw before anything is sent; otherwise each field is sent exactly when given, the age as its decimal text, the avatar when a new file was picked |
| ProfileForm.OnFinishSkippingClearedAge | XhChat/client/src/components/ProfileForm.js:14-34 | the corrected submission: the same entries, with a cleared age simply not sent |
| ProfileForm.SentAgeStored | XhChat/client/src/components/ProfileForm.js:27-29 | the age text the form sends is read back by the server as the same age, for every age a JavaScript number holds exactly |
| ProfileForm.ResponseFields | XhChat/server/models/User.js:23-27 | the profile answer carries id, username, nickname, avatar, gender, age, is_online and last_seen |
| ProfileForm.Overlay | XhChat/client/src/components/ProfileForm.js:55 | the stored user has every key of both; the answer's fields win and the others are kept |
| ProfileForm.StoredUserKeepsToken | XhChat/client/src/components/ProfileForm.js:55-57 | the token survives the profile update and the stored nickname is the one the server answered |
| Strings.JsParseIntRoundTrip | XhChat/server/routes/users.js:41 | parseInt reads back from its decimal text every integer a JavaScript number holds exactly, up to `Number.MAX_SAFE_INTEGER` in size |
| Strings.JsParseIntReads | XhChat/server/routes/users.js:41 | after leading white space and one sign, `0x` or `0X` reads hexadecimal digits and anything else decimal digits; the result is NaN exactly when no digit follows, and a leading minus gives a result of 0 or less |
| Strings.JsParseIntBareHexPrefix | XhChat/server/routes/users.js:41 | `0x` with no hexadecimal digit after it reads as NaN, not as 0 |
| Strings.JsParseIntHex | XhChat/server/routes/users.js:41 | `0x1F` reads as 31 |
| Strings.JavaParseIntRoundTrip | XhchatManage/backend/src/main/java/com/xinhao/backend/controller/MessageController.java:34 | Integer.parseInt reads back every 32-bit integer from its decimal text |
| Strings.JavaParseInt | XhchatManage/backend/src/main/java/com/xinhao/backend/controller/MessageController.java:34 | a parsed value lies in the 32-bit range and comes from non-empty text |
| Strings.JsTrimEmpty | XhChat/server/routes/users.js:14 | a string trims to empty exactly when it is all white space |
| Strings.JsTrimIdempotent | XhChat/server/routes/users.js:14-18 | trimming twice gives the same as trimming once |
| Strings.SplitJoin | XhChat/server/models/Conversation.js:41-70 | splitting a comma-joined list of names without commas gives the names back |
| Store.RollbackKeepsConsistent | XhChat/server/routes/conversations.js:46-52 | rolling back to a consistent snapshot, with the id counters kept, gives a consistent state |
| Store.MembersOfNoDuplicates | XhChat/server/server.js:130-133 | with no repeated participant pair, a conversation's participant query lists each member once |
| Store.Db.InsertConversation | XhChat/server/routes/conversations.js:26-30 | the new conversation gets the next id, which was unused, with the given name, type and owner; nothing else changes |

## Left out

- **Transport.** Express and Socket.io wiring are not modelled: CORS, static files, middleware registration, `server.listen`, upload-directory creation. Each socket handler and each route is one atomic step.
- **Concurrency.** Interleaving of asynchronous handlers across sockets is not modelled.
- **SQL mechanics.** SQL text, JOIN and GROUP_CONCAT mechanics, and the connection pool are not modelled. The tables are Dafny maps and sequences.
- **Column values.** The MySQL schema is not part of this model.
  - Column defaults are written out: offline, created now.
  - A column the source leaves NULL is an `Option`. This includes the password of a row the admin backend inserts.
- **Foreign keys.** The schema is not part of this model, so these foreign keys are assumed. A participant row and a message need an existing conversation: MessageModel.Create and ConversationModel.AddParticipant fail, and change nothing, when it is missing. A read receipt has no foreign key to its message. The fifth finding, UserService.CascadeAsWrittenOrphansReads, relies on that: with such a key the delete of the messages would fail instead.
- **Unique keys.** These unique keys are assumed, since the schema is not part of this model:
  - participant pairs (conversation, user);
  - friendship pairs (user, friend). The `ER_DUP_ENTRY` handling in `routes/users.js` relies on this key;
  - read receipts (message, user). The `ON DUPLICATE KEY UPDATE` of MessageModel.MarkRead relies on this key;
  - `user_settings.user_id`. The duplicate-key error of UserSettings.CreateDefaultSettings relies on this key;
  - role rows (conversation, user) of `conversation_member_roles`. The `ON DUPLICATE KEY UPDATE` of `Conversation.js:143-149`, which ConversationModel.SetRole models, relies on this key.
- **Cascade delete.** The cascade removes neither role nor settings rows. The statements of `UserMapper.java` do not touch them, and a foreign key cascade would need the schema.
- **Row order.** Only the first `ORDER BY` column is modelled. MySQL leaves the order of rows with equal keys open. The model's sorts keep table order among them, and MessageModel.LatestIn takes the later of two messages with the same `created_at`. A query without `ORDER BY`, such as the private-conversation lookup of UserModel.PrivateBetween, returns the first match in participant-row order.
- **Crypto.** bcrypt hashing and comparison are abstracted:
  - the hash is a parameter of registration;
  - the comparison is a function parameter of login.

  `jwt.verify` is its decoded result. `jwt.sign` is the claims record `{id, username}` with the 24-hour lifetime. Token expiry is not checked.
- **Clock and randomness.** `CURRENT_TIMESTAMP`, `Date.now`, `new Date()`, `LocalDate.now` and `Math.random` are parameters.
- **Message payload.** Apart from the conversation id, the `receive_message` payload is opaque. `XhChat/server/server.js:115-127` spreads the array of rows, not the row, into the message. The emitted object therefore carries only the row under the key `"0"`, `created_at` and `conversation_id`: its `id`, `sender_id`, `content`, `type` and `displayName` are all undefined. The client handlers below take a complete message, so they describe the page as it would behave with a well-formed payload.
- ChatClient.Client.OnReceiveMessage: with the payload as emitted, `sender_id` is undefined, so the check at `Chat.js:143` never matches the user's own id and the user's own messages count as unread too; the preview's `last_message` and `last_message_type`, set at `Chat.js:119-125`, become undefined until `conversation_updated` replaces them. The model's contract holds only for a complete payload.
- ChatClient.Client.OnReceiveMessageLive: with the payload as emitted, the same two effects hold, and every message id is undefined, so the id check at `Chat.js:107` finds the first live message already listed and keeps every later one off the list. The model's contract holds only for a complete payload.
- **Disconnects.** There is no disconnect handler and nothing calls `UserStatus.setOffline`. `UserStatus.SetOffline` is modelled on its own, and no gateway step marks a user offline.
- **Unmodelled operations.** These are not part of this model:
  - `Message.updateMessageStatus`, `getMessageStatus` and `searchMessages`;
  - `Conversation.getLastMessage` and `searchConversations`;
  - the `GET /group/:id` and `GET /group/:id/members` routes;
  - the `/create` route, whose call to `Conversation.create` does not match that function's parameters;
  - `routes/settings.js`, which only forwards to `UserSettings`.
- Strings.JavaParseInt: only ASCII digits are read. Integer.parseInt also accepts the other Unicode decimal digits, through Character.digit, so MessageController's sender-id check accepts more texts than the model does.
- **Admin-backend details.** These are not modelled:
  - the growth rate and its `String.format`, `getUserGrowth`, Excel import and export;
  - Spring's own 400 answer for a missing `pageNum` or `pageSize`;
  - `Math.toIntExact` overflow;
  - UserController's `findAll` (`GET /api/user`), `checkUsername` (`GET /api/user/check/{username}`) and `test` (`GET /api/user/test`) endpoints, which only read through MyBatis-Plus's generic `list` and `getOne`.
- **Text matching.** LIKE is plain substring containment: neither MySQL's case-insensitive collation nor `%` and `_` in the query are modelled. Equality lookups are exact string equality. Under MySQL's default collation they also ignore case and trailing spaces; that is not modelled. It affects UserModel.FindByUsername, UserModel.FindByPhone and UserModel.FindByEmail, the uniqueness checks of AuthRoute.Register, and UserService.UsernameTaken, the Java username check. `substring(0, 2)` takes two characters, not UTF-16 units.
- **Client UI.** JSX, scrolling, timers, RecordRTC voice recording, the date formatting of `formatMessageTime`, and the friend-click flow through `/create` are not modelled. The retry loop of `loadConversations` is reduced to its result.
- **Stale state in the client.** The DOM `selected`-class lookup in `receive_message` is the predicate `ShownSelected`: the conversation is in the list as last rendered and is the current one. The `currentConversation` captured by the socket handlers is the field `captured`, which the handlers never update.
- **Files with no behaviour.** `Login.js`, `App.js`, `PrivateRoute.js`, `AuthContext.js`, the admin Vue router and the entity classes are not modelled beyond their field lists.
- UsersRoute.AddFriend: the contract lists the duplicate-entry and generic-failure refusals together, without saying which store error gives which.
- ChatClient.Client.OnConversationUpdated: the handler also reloads the open conversation's messages, and that reload is not modelled. The check reads the captured conversation, which is none, so the reload never runs.
- UserService.RemoveUserById: a failing statement inside the owned-conversation loop is one parameter. The contract does not say which statement failed.
- UserService.RemoveUserByIds: `@Transactional` on `removeUserById` is not applied to a call on the same object, so every removal runs in the batch's one transaction and the batch is all-or-nothing. Each removal is the cascade as written and leaves other users' reads of the removed messages (the fifth finding). The corrected removal, UserService.RemoveUserAndReads, is not used by the batch or by UserController.Delete.
- UserService.UpdateUser: an update with no non-null field is modelled as a success that changes nothing. The SQL it would send is not modelled.
- UserService.SaveUser: on the insert branch, `setCreatedAt` and `setIsOnline(0)` only reach the row through the column defaults, because the mapper's own INSERT lists four columns; a posted `last_seen` is dropped the same way.
- Paging.Window: the MyBatis-Plus pagination interceptor is taken to be registered; its configuration is not part of this model. The SQL `LIMIT` text, the separate count query, the page's derived `pages` field and the `maxLimit` and overflow options are not modelled.
- MessageService.FindPageWithUsername: on a page with no records, `listByIds` receives an empty list. MyBatis-Plus versions that render that as `IN ()` throw, and the controller then answers 获取消息列表失败： with the message. The `failure` parameter of MessageController.FindPage stands for that case; FindPageWithUsername itself models the versions that return no users.
- MessageController.FindPage: a null `e.getMessage()` is not modelled. The error message is always a string.
- Strings.JsParseInt: the result is the exact integer read. parseInt returns a double, which rounds integers beyond `Number.MAX_SAFE_INTEGER`; that rounding is not modelled, so Strings.JsParseIntRoundTrip and ProfileForm.SentAgeStored are stated only up to that bound.
- UserSettings.UpdateSettings: the keys of the settings object are spliced into the SET clause as text. The model takes each key to be a plain column name: it is an assignment to that column, or an error when it names no column. A key that holds SQL text, such as `theme = 'dark', language`, would write several columns, and a `user_id` key would move the row to another user. Neither is modelled.
- UsersRoute.UpdateProfile: an age that parseInt reads as NaN stays in the updates object and is taken to make the UPDATE fail (UserModel.UpdateProfile), so the answer is 500, even when the age is the only field. How mysql2 and the column's SQL mode treat a NaN parameter is not part of this model.
- Upload.StoredNameKeepsExtension: lower-casing (`Strings.ToLower`, used by Upload.Filename) covers ASCII letters only. JavaScript's `toLowerCase` also maps other Unicode letters, so an extension with non-ASCII capitals is not modelled.
- ChatClient.FileTypeOfUpload: the same ASCII-only lower-casing is used by ChatClient.FileType, so an extension with non-ASCII capitals is not modelled.

## Findings

| source | as written | input that shows it | evidently intended | confidence | as-written member | corrected member |
|---|---|---|---|---|---|---|
| XhChat/server/routes/conversations.js:26-44 | creating a group records `owner_id` but writes no role row. Setting a role requires the requester's role to be owner or admin, and every role reads as member. So no role can ever be set in such a group | user 1 creates a group with member 2, then asks to make 2 an admin: 403 | the creator is the group's owner in the role table, as the comment on the creator insert says | high, not executed | ConversationsRoute.RolesNeverSetInNewGroup | ConversationsRoute.OwnerMaySetRole |
| XhChat/server/server.js:170-175 | `join_room` joins any room name. It checks neither the socket's user nor membership | user 2's socket sends `join_room` with `"user_1"` and from then on receives every message sent to user 1 | only conversations the caller takes part in can be joined | high, not executed | Gateway.JoinRoomReachesPrivateRoom | Gateway.JoinCheckedKeepsPrivateRooms |
| XhChat/client/src/pages/Chat.js:101-116 | the `receive_message` handler is set up once per token. It reads the `currentConversation` of that first render, which is null | conversation 5 is open and another user's message for conversation 5 arrives: it is not appended to the list on screen | a message of the open conversation appears when it arrives | medium (React closure semantics), not executed | ChatClient.Client.OnReceiveMessage | ChatClient.Client.OnReceiveMessageLive |
| XhChat/client/src/components/ProfileForm.js:27-29 | the age is sent whenever it is not undefined. A cleared number input holds null, and `null.toString()` throws, so the profile cannot be saved | clear the age field and save | a cleared age is left out of the form data | medium (antd InputNumber gives null when cleared), not executed | ProfileForm.OnFinish | ProfileForm.OnFinishSkippingClearedAge |
| XhchatManage/backend/src/main/java/com/xinhao/backend/service/UserService.java:196-198 | removing a user deletes only the user's own read rows, then the user's messages. Other users' read rows of those messages are left pointing at deleted messages | users 1 and 2 in a group owned by 2, with user 1's message read by user 2; removing user 1 leaves the read row (message 1, user 2) | the read rows of every removed message are removed too | medium (a foreign key in the schema would make the delete fail instead), not executed | UserService.CascadeAsWrittenOrphansReads | UserService.CascadeKeepsReadsResolved |
