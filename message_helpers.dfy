/**
 * rchat/views/message/helpers.py: who wrote a message, how a referenced
 * (forwarded or replied-to) message is shown, and the message list that
 * `/message/list` returns, as the module is written.
 *
 * The stores are read-only values here: the message table (`rows`), the
 * chat table (`chats`) and the user table as a map from id to user.
 */
module MessageHelpers {
  import opened Wrappers
  import opened Schemas
  import opened MessageModels
  import Media
  import MessageRepo
  import ChatRepo

  /** Every user is stored under its own id. */
  ghost predicate UsersKeyed(users: map<UserId, User>)
  {
    forall id :: id in users ==> users[id].id == id
  }

  /**
   * `get_message_sender`: a message written by a user is shown with that
   * user's id, first name and avatar; otherwise with the sender chat's id,
   * name and avatar. A missing user or chat is read as None and faults; a
   * chat without a name cannot become a sender.
   */
  function GetMessageSender(users: map<UserId, User>, chats: seq<Chat>, m: Message): (r: Result<MessageSender, Fault>)
    ensures r.Success? ==> (r.value.userId.Some? <==> r.value.chatId.None?)
    ensures m.senderUserId.Some? ==> (r.Failure? <==> m.senderUserId.value !in users)
    ensures (m.senderUserId.Some? && r.Success? ==>
              var u := users[m.senderUserId.value];
              && r.value.userId == Some(u.id)
              && r.value.name == u.firstName
              && (r.value.avatarPhotoUrl.None? <==> u.avatarPhotoId.None?))
    ensures UsersKeyed(users) && m.senderUserId.Some? && r.Success? ==> r.value.userId == m.senderUserId
    ensures (m.senderUserId.None? ==>
              (r.Failure? <==> m.senderChatId.None? || ChatRepo.GetById(chats, m.senderChatId.value).None?
                               || ChatRepo.GetById(chats, m.senderChatId.value).value.name.None?))
    ensures (m.senderUserId.None? && r.Success? ==>
              && m.senderChatId.Some?
              && var c := ChatRepo.GetById(chats, m.senderChatId.value).value;
              && r.value.chatId == m.senderChatId
              && Some(r.value.name) == c.name
              && (r.value.avatarPhotoUrl.None? <==> c.avatarPhotoId.None?))
    ensures (r.Failure? ==>
              (r.error == SenderNameInvalid <==>
                 m.senderUserId.None? && m.senderChatId.Some? && ChatRepo.GetById(chats, m.senderChatId.value).Some?))
    ensures r.Failure? ==> r.error in {NoneHasNoAttribute, SenderNameInvalid}
  {
    if m.senderUserId.Some? then
      if m.senderUserId.value !in users then Failure(NoneHasNoAttribute)
      else
        var u := users[m.senderUserId.value];
        assert UsersKeyed(users) ==> u.id == m.senderUserId.value;
        Success(MessageSender(Some(u.id), None, u.firstName, Media.AvatarUrl(u.avatarPhotoId)))
    else
      var chat := if m.senderChatId.Some? then ChatRepo.GetById(chats, m.senderChatId.value) else None;
      if chat.None? then Failure(NoneHasNoAttribute)
      else if chat.value.name.None? then Failure(SenderNameInvalid)
      else Success(MessageSender(None, Some(chat.value.id), chat.value.name.value, Media.AvatarUrl(chat.value.avatarPhotoId)))
  }

  /**
   * `message_repo.get_by_id(id_=ref)`: an absent reference (SQL NULL)
   * matches no row.
   */
  function ResolveRef(rows: seq<MessageRepo.MessageRow>, ref: Option<MessageId>): (r: Option<Message>)
    ensures r.None? <==> ref.None? || forall i :: 0 <= i < |rows| ==> rows[i].message.id != ref.value
    ensures r.Some? ==> ref == Some(r.value.id) && exists i :: 0 <= i < |rows| && rows[i].message == r.value
  {
    if ref.None? then None else MessageRepo.GetById(rows, ref.value)
  }

  /**
   * A referenced message as shown inside another one: absent when the
   * reference does not resolve, otherwise its id, type, text and sender.
   */
  function Referenced(users: map<UserId, User>, chats: seq<Chat>, rows: seq<MessageRepo.MessageRow>,
                      ref: Option<MessageId>): (r: Result<Option<ForeignMessage>, Fault>)
    ensures (r.Failure? <==>
              ResolveRef(rows, ref).Some? && GetMessageSender(users, chats, ResolveRef(rows, ref).value).Failure?)
    ensures r.Success? ==> (r.value.None? <==> ResolveRef(rows, ref).None?)
    ensures (r.Success? && r.value.Some? ==>
              var target := ResolveRef(rows, ref).value;
              && ref == Some(r.value.value.id)
              && r.value.value.messageType == target.messageType
              && r.value.value.messageText == target.messageText
              && Success(r.value.value.sender) == GetMessageSender(users, chats, target))
  {
    var target := ResolveRef(rows, ref);
    if target.None? then Success(None)
    else
      var sender := GetMessageSender(users, chats, target.value);
      if sender.Failure? then Failure(sender.error)
      else Success(Some(ForeignMessage(target.value.id, target.value.messageType, target.value.messageText, sender.value)))
  }

  /**
   * One entry of the message list: the message's own fields, the
   * forwarded and replied-to messages (looked up in that order) and the
   * sender; the first fault met ends the request. The audio and video
   * link fields are not the names the message dump carries, so they stay
   * at their default (None), and so does the reader list.
   */
  function ResponseFor(users: map<UserId, User>, chats: seq<Chat>, rows: seq<MessageRepo.MessageRow>, m: Message)
    : (r: Result<MessageResponse, Fault>)
    ensures (r.Failure? <==>
              || Referenced(users, chats, rows, m.forwardedMessage).Failure?
              || Referenced(users, chats, rows, m.replyToMessage).Failure?
              || GetMessageSender(users, chats, m).Failure?)
    ensures (r.Success? ==>
              && r.value.id == m.id && r.value.messageType == m.messageType && r.value.chatId == m.chatId
              && r.value.messageText == m.messageText && r.value.isSilent == m.isSilent
              && r.value.lastEditedAt == m.lastEditedAt && r.value.createdAt == m.createdTimestamp
              && r.value.audioMsgFileLink.None? && r.value.videoMsgFileLink.None? && r.value.readByUsers == [])
    ensures r.Success? ==> Success(r.value.sender) == GetMessageSender(users, chats, m)
    ensures r.Success? ==> Success(r.value.forwardedMessage) == Referenced(users, chats, rows, m.forwardedMessage)
    ensures r.Success? ==> Success(r.value.replyToMessage) == Referenced(users, chats, rows, m.replyToMessage)
  {
    var forwarded := Referenced(users, chats, rows, m.forwardedMessage);
    if forwarded.Failure? then Failure(forwarded.error)
    else
      var replied := Referenced(users, chats, rows, m.replyToMessage);
      if replied.Failure? then Failure(replied.error)
      else
        var sender := GetMessageSender(users, chats, m);
        if sender.Failure? then Failure(sender.error)
        else Success(MessageResponse(m.id, m.messageType, m.chatId, sender.value, m.messageText, None, None,
                                     replied.value, forwarded.value, m.isSilent, m.lastEditedAt,
                                     m.createdTimestamp, []))
  }

  /**
   * One entry of the message list as this module writes it: the
   * forwarded message's sender is asked of the application state object,
   * which has no such method, so a resolving forward reference faults.
   */
  function ResponseAsWritten(users: map<UserId, User>, chats: seq<Chat>, rows: seq<MessageRepo.MessageRow>, m: Message)
    : (r: Result<MessageResponse, Fault>)
    ensures ResolveRef(rows, m.forwardedMessage).Some? ==> r == Failure(StateHasNoAttribute)
    ensures ResolveRef(rows, m.forwardedMessage).None? ==> r == ResponseFor(users, chats, rows, m)
  {
    if ResolveRef(rows, m.forwardedMessage).Some? then Failure(StateHasNoAttribute)
    else ResponseFor(users, chats, rows, m)
  }

  /**
   * A message that forwards a stored message: the list as written faults
   * on it, while the intended entry exists.
   */
  lemma ForwardedMessageBreaksList()
    ensures var users := map[1 := User(1, "ann", "Ann", None, None)];
      var original := Message(10, Text, 100, Some(1), None, Some("hi"), None, None, None, None, false, None, 5);
      var forward := Message(11, Text, 100, Some(1), None, None, None, None, None, Some(10), false, None, 6);
      var rows := [MessageRepo.MessageRow(original, 1), MessageRepo.MessageRow(forward, 2)];
      && ResponseAsWritten(users, [], rows, forward) == Failure(StateHasNoAttribute)
      && ResponseFor(users, [], rows, forward).Success?
      && ResponseFor(users, [], rows, forward).value.forwardedMessage.Some?
  {
    var users := map[1 := User(1, "ann", "Ann", None, None)];
    var original := Message(10, Text, 100, Some(1), None, Some("hi"), None, None, None, None, false, None, 5);
    var forward := Message(11, Text, 100, Some(1), None, None, None, None, None, Some(10), false, None, 6);
    var rows := [MessageRepo.MessageRow(original, 1), MessageRepo.MessageRow(forward, 2)];
    assert MessageRepo.GetById(rows, 10) == Some(original);
  }

  /**
   * `get_chat_messages_list` as written: the fetched page, then one entry
   * per message (`EntriesAsWritten`); a negative limit is refused by the
   * query, and a page holding a message whose forward reference resolves
   * always faults.
   */
  method GetChatMessagesList(users: map<UserId, User>, chats: seq<Chat>, rows: seq<MessageRepo.MessageRow>,
                             chatId: ChatId, limit: int, lastOrderId: int)
    returns (r: Result<seq<MessageResponse>, Fault>)
    ensures limit < 0 ==> r == Failure(NegativeLimit)
    ensures (0 <= limit && r.Success? ==>
              var ms := MessageRepo.GetChatMessages(rows, chatId, lastOrderId, limit).value;
              && |r.value| == |ms|
              && forall k :: 0 <= k < |ms| ==> ResponseAsWritten(users, chats, rows, ms[k]) == Success(r.value[k]))
    ensures (0 <= limit ==>
              var ms := MessageRepo.GetChatMessages(rows, chatId, lastOrderId, limit).value;
              (exists k :: 0 <= k < |ms| && ResolveRef(rows, ms[k].forwardedMessage).Some?) ==> r.Failure?)
    ensures (0 <= limit && r.Failure? ==>
              var ms := MessageRepo.GetChatMessages(rows, chatId, lastOrderId, limit).value;
              exists k :: (0 <= k < |ms| && ResponseAsWritten(users, chats, rows, ms[k]) == Failure(r.error)
                           && forall j :: 0 <= j < k ==> ResponseAsWritten(users, chats, rows, ms[j]).Success?))
    ensures (0 <= limit ==>
              var ms := MessageRepo.GetChatMessages(rows, chatId, lastOrderId, limit).value;
              (forall k :: 0 <= k < |ms| ==> ResponseAsWritten(users, chats, rows, ms[k]).Success?) ==> r.Success?)
  {
    var fetched := MessageRepo.GetChatMessages(rows, chatId, lastOrderId, limit);
    if fetched.Failure? {
      return Failure(fetched.error);
    }
    r := EntriesAsWritten(users, chats, rows, fetched.value);
  }

  /**
   * The loop of `get_chat_messages_list` as written: one entry per
   * message, in order, or the fault of the first message that has none.
   */
  method EntriesAsWritten(users: map<UserId, User>, chats: seq<Chat>, rows: seq<MessageRepo.MessageRow>,
                          ms: seq<Message>)
    returns (r: Result<seq<MessageResponse>, Fault>)
    ensures (r.Success? ==>
              && |r.value| == |ms|
              && forall k :: 0 <= k < |ms| ==> ResponseAsWritten(users, chats, rows, ms[k]) == Success(r.value[k]))
    ensures (r.Failure? ==>
              exists k :: (0 <= k < |ms| && ResponseAsWritten(users, chats, rows, ms[k]) == Failure(r.error)
                           && forall j :: 0 <= j < k ==> ResponseAsWritten(users, chats, rows, ms[j]).Success?))
  {
    var out: seq<MessageResponse> := [];
    var i := 0;
    while i < |ms|
      invariant 0 <= i <= |ms|
      invariant |out| == i
      invariant forall k :: 0 <= k < i ==> ResponseAsWritten(users, chats, rows, ms[k]) == Success(out[k])
    {
      var entry := ResponseAsWritten(users, chats, rows, ms[i]);
      if entry.Failure? {
        return Failure(entry.error);
      }
      out := out + [entry.value];
      i := i + 1;
    }
    return Success(out);
  }
}
