/**
 * rchat/views/message/views.py: the `/message/list` endpoint and the
 * socket handlers for new messages and read receipts.
 *
 * Helpers whose bodies are not part of this model enter as follows: the
 * chat that `validate_message_body_and_get_chat` settles on is a
 * parameter, and the chat tables are taken as they stand after it ran;
 * `get_user_id_from_socket_session` is the lookup of the connection's
 * session; `create_and_send_message` stores the message through
 * `CreateMessage` and sends the input `broadcast`; the markers that
 * `mark_unread_messages_before_as_read` adds are the input `caughtUp`.
 */
module MessageViews {
  import opened Wrappers
  import opened Schemas
  import opened MessageModels
  import opened Sorting
  import MessageRepo
  import ChatRepo
  import MessageService
  import MessageHelpers
  import opened SocketServer

  /** What the new-message guards decide: refused with a status, or the message to create. */
  datatype NewMessageVerdict = Refused(status: NewMessageStatus) | Create(message: MessageCreate)

  /** The reply target exists and belongs to the chat written in. */
  predicate ReplyTargetOk(rows: seq<MessageRepo.MessageRow>, chat: Chat, id: MessageId)
  {
    var target := MessageRepo.GetById(rows, id);
    target.Some? && target.value.chatId == chat.id
  }

  /** The forwarded message exists, in any chat, and the sender takes part in that chat. */
  predicate ForwardTargetOk(chatUsers: seq<ChatUser>, rows: seq<MessageRepo.MessageRow>, sender: UserId, id: MessageId)
  {
    var target := MessageRepo.GetById(rows, id);
    target.Some? && ChatRepo.IsParticipant(chatUsers, target.value.chatId, sender)
  }

  /**
   * The guards of `handle_new_message`, in order: the sender takes part in
   * the chat; not a reply and a forward at once; the reply target is in
   * this chat; the forwarded message is in a chat of the sender. A message
   * that passes is a text message of the resolved chat by the sender, the
   * body's own chat id ignored.
   */
  function NewMessageDecision(chatUsers: seq<ChatUser>, rows: seq<MessageRepo.MessageRow>, chat: Chat,
                              sender: UserId, body: CreateMessageBody, newId: MessageId): (d: NewMessageVerdict)
    ensures d == Refused(ChatNotFound) <==> !ChatRepo.IsParticipant(chatUsers, chat.id, sender)
    ensures (d == Refused(CannotReplyThisMessage) <==>
               && ChatRepo.IsParticipant(chatUsers, chat.id, sender)
               && body.replyToMessageId.Some?
               && (body.forwardedMessageId.Some? || !ReplyTargetOk(rows, chat, body.replyToMessageId.value)))
    ensures (d == Refused(CannotForwardThisMessage) <==>
               && ChatRepo.IsParticipant(chatUsers, chat.id, sender)
               && body.replyToMessageId.None?
               && body.forwardedMessageId.Some?
               && !ForwardTargetOk(chatUsers, rows, sender, body.forwardedMessageId.value))
    ensures (d.Create? <==>
               && ChatRepo.IsParticipant(chatUsers, chat.id, sender)
               && (body.replyToMessageId.None? || body.forwardedMessageId.None?)
               && (body.replyToMessageId.Some? ==> ReplyTargetOk(rows, chat, body.replyToMessageId.value))
               && (body.forwardedMessageId.Some? ==> ForwardTargetOk(chatUsers, rows, sender, body.forwardedMessageId.value)))
    ensures (d.Create? ==>
               && d.message.id == newId
               && d.message.messageType == Text
               && d.message.chatId == chat.id
               && d.message.senderUserId == Some(sender)
               && d.message.messageText == body.messageText
               && d.message.replyToMessageId == body.replyToMessageId
               && d.message.forwardedMessageId == body.forwardedMessageId
               && d.message.isSilent == body.isSilent)
  {
    if sender !in ChatRepo.GetChatParticipantUsers(chatUsers, chat.id) then Refused(ChatNotFound)
    else if body.replyToMessageId.Some? && body.forwardedMessageId.Some? then Refused(CannotReplyThisMessage)
    else if body.replyToMessageId.Some? && !ReplyTargetOk(rows, chat, body.replyToMessageId.value) then
      Refused(CannotReplyThisMessage)
    else if body.forwardedMessageId.Some? && !ForwardTargetOk(chatUsers, rows, sender, body.forwardedMessageId.value) then
      Refused(CannotForwardThisMessage)
    else
      Create(MessageCreate(newId, Text, chat.id, Some(sender), body.messageText, body.replyToMessageId,
                           body.forwardedMessageId, body.isSilent))
  }

  /**
   * A body that both replies and forwards is refused before either
   * message is looked up: the message table does not matter.
   */
  lemma ReplyAndForwardRefusedUnread(chatUsers: seq<ChatUser>, rows1: seq<MessageRepo.MessageRow>,
                                     rows2: seq<MessageRepo.MessageRow>, chat: Chat, sender: UserId,
                                     body: CreateMessageBody, newId: MessageId)
    requires ChatRepo.IsParticipant(chatUsers, chat.id, sender)
    requires body.replyToMessageId.Some? && body.forwardedMessageId.Some?
    ensures NewMessageDecision(chatUsers, rows1, chat, sender, body, newId) == Refused(CannotReplyThisMessage)
    ensures (NewMessageDecision(chatUsers, rows1, chat, sender, body, newId)
               == NewMessageDecision(chatUsers, rows2, chat, sender, body, newId))
  {
  }

  /** A message of another chat may be forwarded by a participant of both chats. */
  lemma ForwardFromOtherChat(chatUsers: seq<ChatUser>, rows: seq<MessageRepo.MessageRow>, chat: Chat,
                             sender: UserId, body: CreateMessageBody, newId: MessageId, source: Message)
    requires ChatRepo.IsParticipant(chatUsers, chat.id, sender)
    requires body.replyToMessageId.None? && body.forwardedMessageId.Some?
    requires MessageRepo.GetById(rows, body.forwardedMessageId.value) == Some(source)
    requires source.chatId != chat.id && ChatRepo.IsParticipant(chatUsers, source.chatId, sender)
    ensures NewMessageDecision(chatUsers, rows, chat, sender, body, newId).Create?
    ensures NewMessageDecision(chatUsers, rows, chat, sender, body, newId).message.chatId == chat.id
  {
  }

  /** The error event a refused socket request gets, sent back to the same connection. */
  function ErrorEvent(sid: Sid, event: SocketEvent, msg: ErrorMessage): (a: Action)
    ensures a.Emit? && a.to == sid && a.event == Error
    ensures a.payload.ErrorPayload? && a.payload.sourceEvent == event && a.payload.errorMsg == msg
  {
    Emit(sid, Error, ErrorPayload(InvalidData, event, msg))
  }

  /**
   * `handle_new_message`: a refused message answers the sender's
   * connection with exactly one error event and stores nothing. An
   * accepted one goes to `create_and_send_message`, which stores it (an id
   * already taken is refused by the table, and the request ends there) and
   * sends `broadcast`; then `mark_unread_messages_before_as_read` adds the
   * markers `caughtUp`. The two helpers' bodies are not part of this
   * model, so what they send and mark are inputs.
   */
  method HandleNewMessage(server: Server, chatRepo: ChatRepo.ChatRepository, msgRepo: MessageRepo.MessageRepository,
                          sid: Sid, body: CreateMessageBody, validated: Option<Chat>, newId: MessageId, now: Timestamp,
                          broadcast: seq<Action>, caughtUp: set<(MessageId, UserId)>)
    requires msgRepo.Valid()
    modifies server`outbox, msgRepo
    ensures msgRepo.Valid()
    ensures (sid !in server.sessions || validated.None? ==>
               && server.outbox == old(server.outbox) && msgRepo.rows == old(msgRepo.rows)
               && msgRepo.nextOrderId == old(msgRepo.nextOrderId) && msgRepo.readMarkers == old(msgRepo.readMarkers))
    ensures (sid in server.sessions && validated.Some? ==>
               var d := NewMessageDecision(chatRepo.chatUsers, old(msgRepo.rows), validated.value,
                                           server.sessions[sid], body, newId);
               && (d.Refused? ==>
                     && server.outbox == old(server.outbox) + [ErrorEvent(sid, NewMessage, NewMessageError(d.status))]
                     && msgRepo.rows == old(msgRepo.rows) && msgRepo.nextOrderId == old(msgRepo.nextOrderId)
                     && msgRepo.readMarkers == old(msgRepo.readMarkers))
               && (d.Create? && MessageRepo.GetById(old(msgRepo.rows), newId).None? ==>
                     && msgRepo.rows == old(msgRepo.rows)
                                        + [MessageRepo.MessageRow(MessageRepo.StoredMessage(d.message, now),
                                                                  old(msgRepo.nextOrderId))]
                     && msgRepo.nextOrderId == old(msgRepo.nextOrderId) + 1
                     && server.outbox == old(server.outbox) + broadcast
                     && msgRepo.readMarkers == old(msgRepo.readMarkers) + caughtUp)
               && (d.Create? && MessageRepo.GetById(old(msgRepo.rows), newId).Some? ==>
                     && msgRepo.rows == old(msgRepo.rows) && msgRepo.nextOrderId == old(msgRepo.nextOrderId)
                     && server.outbox == old(server.outbox) && msgRepo.readMarkers == old(msgRepo.readMarkers)))
  {
    if sid !in server.sessions || validated.None? {
      return;
    }
    var sender := server.sessions[sid];
    var d := NewMessageDecision(chatRepo.chatUsers, msgRepo.rows, validated.value, sender, body, newId);
    if d.Refused? {
      server.EmitError(sid, NewMessage, NewMessageError(d.status));
      return;
    }
    var stored := msgRepo.CreateMessage(d.message, now);
    if stored.Failure? {
      return;
    }
    server.outbox := server.outbox + broadcast;
    msgRepo.readMarkers := msgRepo.readMarkers + caughtUp;
  }

  datatype ReadVerdict = ReadRefused(status: ReadMessageStatus) | ReadAccepted(message: Message)

  /** The message the receipt names exists and is in the chat the receipt names. */
  predicate FoundInChat(rows: seq<MessageRepo.MessageRow>, body: ReadMessageBody)
  {
    var message := MessageRepo.GetById(rows, body.messageId);
    message.Some? && message.value.chatId == body.chatId
  }

  /**
   * The guards of `handle_read_message`, in order: the message exists in
   * the chat the body names; the reader takes part in that chat; the
   * reader is not its author; the reader has not read it yet.
   */
  function ReadDecision(rows: seq<MessageRepo.MessageRow>, chatUsers: seq<ChatUser>,
                        markers: set<(MessageId, UserId)>, body: ReadMessageBody, reader: UserId): (v: ReadVerdict)
    ensures v == ReadRefused(MessageNotFound) <==> !FoundInChat(rows, body)
    ensures (v == ReadRefused(UserNotInChat) <==>
               FoundInChat(rows, body) && !ChatRepo.IsParticipant(chatUsers, body.chatId, reader))
    ensures (v == ReadRefused(UserCannotReadOwnMessage) <==>
               && FoundInChat(rows, body) && ChatRepo.IsParticipant(chatUsers, body.chatId, reader)
               && MessageRepo.GetById(rows, body.messageId).value.senderUserId == Some(reader))
    ensures (v == ReadRefused(UserAlreadyReadTheMessage) <==>
               && FoundInChat(rows, body) && ChatRepo.IsParticipant(chatUsers, body.chatId, reader)
               && MessageRepo.GetById(rows, body.messageId).value.senderUserId != Some(reader)
               && (body.messageId, reader) in markers)
    ensures (v.ReadAccepted? ==>
               && MessageRepo.GetById(rows, body.messageId) == Some(v.message)
               && v.message.id == body.messageId && v.message.chatId == body.chatId
               && ChatRepo.IsParticipant(chatUsers, body.chatId, reader)
               && v.message.senderUserId != Some(reader)
               && (body.messageId, reader) !in markers)
  {
    var message := MessageRepo.GetById(rows, body.messageId);
    if message.None? || message.value.chatId != body.chatId then ReadRefused(MessageNotFound)
    else if reader !in ChatRepo.GetChatParticipantUsers(chatUsers, message.value.chatId) then ReadRefused(UserNotInChat)
    else if message.value.senderUserId == Some(reader) then ReadRefused(UserCannotReadOwnMessage)
    else if (body.messageId, reader) in markers then ReadRefused(UserAlreadyReadTheMessage)
    else ReadAccepted(message.value)
  }

  /** The request reaches `mark_message_as_read`: the first three guards pass. */
  predicate ReachesMark(v: ReadVerdict)
  {
    v.ReadAccepted? || v == ReadRefused(UserAlreadyReadTheMessage)
  }

  /** The read markers after one read request. */
  function MarkersAfter(rows: seq<MessageRepo.MessageRow>, chatUsers: seq<ChatUser>,
                        markers: set<(MessageId, UserId)>, body: ReadMessageBody, reader: UserId)
    : (after: set<(MessageId, UserId)>)
    ensures markers <= after && after - markers <= {(body.messageId, reader)}
  {
    if ReachesMark(ReadDecision(rows, chatUsers, markers, body, reader)) then markers + {(body.messageId, reader)}
    else markers
  }

  /**
   * Sending the same read receipt again changes nothing more: a receipt
   * that was marked is then refused as already read, one refused earlier
   * is refused for the same reason, and the markers stay as they were.
   */
  lemma {:induction false} ReadIdempotent(rows: seq<MessageRepo.MessageRow>, chatUsers: seq<ChatUser>,
                                          markers: set<(MessageId, UserId)>, body: ReadMessageBody, reader: UserId)
    ensures (var first := ReadDecision(rows, chatUsers, markers, body, reader);
             var again := MarkersAfter(rows, chatUsers, markers, body, reader);
             && (ReachesMark(first) ==>
                   ReadDecision(rows, chatUsers, again, body, reader) == ReadRefused(UserAlreadyReadTheMessage))
             && (!ReachesMark(first) ==> ReadDecision(rows, chatUsers, again, body, reader) == first)
             && MarkersAfter(rows, chatUsers, again, body, reader) == again)
  {
    var first := ReadDecision(rows, chatUsers, markers, body, reader);
    var again := MarkersAfter(rows, chatUsers, markers, body, reader);
    if ReachesMark(first) {
      assert (body.messageId, reader) in again;
    } else {
      assert again == markers;
    }
  }

  /** The receipt sent to one participant: nothing when the participant is not present. */
  function ReceiptTo(users: map<PresenceKey, Sid>, user: UserId, read: ReadMessageResponse): (acts: seq<Action>)
    ensures |acts| <= 1
    ensures acts != [] <==> UserKey(user) in users
  {
    if UserKey(user) in users then [Emit(users[UserKey(user)], ReadMessage, ReadPayload(read))] else []
  }

  /** The receipts the broadcast loop sends, participant by participant. */
  function FanOut(users: map<PresenceKey, Sid>, participants: seq<UserId>, read: ReadMessageResponse): (acts: seq<Action>)
    ensures |acts| <= |participants|
  {
    if participants == [] then []
    else ReceiptTo(users, participants[0], read) + FanOut(users, participants[1..], read)
  }

  /** Everything the broadcast sends is the read receipt, as a `read_message` event. */
  lemma {:induction false} FanOutSendsReceipt(users: map<PresenceKey, Sid>, participants: seq<UserId>,
                                              read: ReadMessageResponse)
    ensures forall a :: a in FanOut(users, participants, read) ==>
              a.Emit? && a.event == ReadMessage && a.payload == ReadPayload(read)
  {
    if participants != [] {
      FanOutSendsReceipt(users, participants[1..], read);
    }
  }

  /** One more participant adds that participant's receipt at the end. */
  lemma {:induction false} FanOutAppend(users: map<PresenceKey, Sid>, participants: seq<UserId>, user: UserId,
                                        read: ReadMessageResponse)
    ensures FanOut(users, participants + [user], read) == FanOut(users, participants, read) + ReceiptTo(users, user, read)
  {
    if participants == [] {
      assert [user][1..] == [];
    } else {
      assert (participants + [user])[1..] == participants[1..] + [user];
      FanOutAppend(users, participants[1..], user, read);
    }
  }

  /** The participants that have an entry in the presence map. */
  function PresentIn(users: map<PresenceKey, Sid>): UserId -> bool
  {
    (u: UserId) => UserKey(u) in users
  }

  /**
   * The broadcast sends one receipt to each present participant, in
   * participant order, each to that participant's connection, and
   * nothing for the others.
   */
  lemma {:induction false} FanOutReachesPresent(users: map<PresenceKey, Sid>, participants: seq<UserId>,
                                                read: ReadMessageResponse)
    ensures (var present := Filter(participants, PresentIn(users));
             && |FanOut(users, participants, read)| == |present|
             && forall k :: 0 <= k < |present| ==>
                  FanOut(users, participants, read)[k] == Emit(users[UserKey(present[k])], ReadMessage, ReadPayload(read)))
  {
    if participants != [] {
      var rest := participants[1..];
      var p := PresentIn(users);
      var all, tail := FanOut(users, participants, read), FanOut(users, rest, read);
      FanOutReachesPresent(users, rest, read);
      assert all == ReceiptTo(users, participants[0], read) + tail;
      if p(participants[0]) {
        var present := Filter(participants, p);
        assert present == [participants[0]] + Filter(rest, p);
        forall k | 0 <= k < |present|
          ensures all[k] == Emit(users[UserKey(present[k])], ReadMessage, ReadPayload(read))
        {
          if k > 0 {
            assert all[k] == tail[k - 1] && present[k] == Filter(rest, p)[k - 1];
          }
        }
      } else {
        assert Filter(participants, p) == Filter(rest, p);
        assert all == tail;
      }
    }
  }

  /**
   * `handle_read_message`: from the reader's connection (no session, no
   * effect), the guards decide. A refused receipt answers the reader with
   * one error event; an accepted one is followed by
   * `mark_unread_messages_before_as_read`, whose markers `caughtUp` are an
   * input, and broadcasts the receipt to the message's chat. The read
   * marker is set whenever the first three guards pass.
   */
  method HandleReadMessage(server: Server, chatRepo: ChatRepo.ChatRepository, msgRepo: MessageRepo.MessageRepository,
                           sid: Sid, body: ReadMessageBody, caughtUp: set<(MessageId, UserId)>)
    modifies server`outbox, msgRepo`readMarkers
    ensures (sid !in server.sessions ==>
               server.outbox == old(server.outbox) && msgRepo.readMarkers == old(msgRepo.readMarkers))
    ensures (sid in server.sessions ==>
               var reader := server.sessions[sid];
               var v := ReadDecision(msgRepo.rows, chatRepo.chatUsers, old(msgRepo.readMarkers), body, reader);
               && (v.ReadRefused? ==>
                     msgRepo.readMarkers == MarkersAfter(msgRepo.rows, chatRepo.chatUsers, old(msgRepo.readMarkers), body, reader))
               && (v.ReadAccepted? ==>
                     msgRepo.readMarkers
                     == MarkersAfter(msgRepo.rows, chatRepo.chatUsers, old(msgRepo.readMarkers), body, reader) + caughtUp)
               && (v.ReadRefused? ==>
                     server.outbox == old(server.outbox) + [ErrorEvent(sid, ReadMessage, ReadMessageError(v.status))])
               && (v.ReadAccepted? ==>
                     server.outbox == old(server.outbox)
                                      + FanOut(server.users, ChatRepo.GetChatParticipantUsers(chatRepo.chatUsers, v.message.chatId),
                                               ReadMessageResponse(v.message.chatId, v.message.id, reader))))
  {
    if sid !in server.sessions {
      return;
    }
    var reader := server.sessions[sid];
    var v := ReadDecision(msgRepo.rows, chatRepo.chatUsers, msgRepo.readMarkers, body, reader);
    if !ReachesMark(v) {
      server.EmitError(sid, ReadMessage, ReadMessageError(v.status));
      return;
    }
    var isMarked := msgRepo.MarkMessageAsRead(body.messageId, reader);
    if !isMarked {
      server.EmitError(sid, ReadMessage, ReadMessageError(UserAlreadyReadTheMessage));
      return;
    }
    msgRepo.readMarkers := msgRepo.readMarkers + caughtUp;
    var message := v.message;
    var read := ReadMessageResponse(message.chatId, message.id, reader);
    var participants := ChatRepo.GetChatParticipantUsers(chatRepo.chatUsers, message.chatId);
    ghost var marked := msgRepo.readMarkers;
    var i := 0;
    while i < |participants|
      invariant 0 <= i <= |participants|
      invariant msgRepo.readMarkers == marked
      invariant server.outbox == old(server.outbox) + FanOut(server.users, participants[..i], read)
    {
      FanOutAppend(server.users, participants[..i], participants[i], read);
      assert participants[..i + 1] == participants[..i] + [participants[i]];
      if UserKey(participants[i]) in server.users {
        server.Send(server.users[UserKey(participants[i])], ReadMessage, ReadPayload(read));
      }
      i := i + 1;
    }
    assert participants[..i] == participants;
  }

  datatype ChatMessagesAnswer =
    | BadRequest(status: ChatMessagesStatus)
    | Raised(fault: Fault)
    | Messages(messages: seq<MessageResponse>)

  /**
   * `get_chat_messages` (`/message/list`): 400 when the chat does not
   * exist, 400 when the viewer is not in it, otherwise the chat's message
   * list (or the fault that ended building it).
   */
  method GetChatMessages(users: map<UserId, User>, chats: seq<Chat>, chatUsers: seq<ChatUser>,
                         rows: seq<MessageRepo.MessageRow>, viewer: UserId, chatId: ChatId, limit: int,
                         lastOrderId: int := 0)
    returns (a: ChatMessagesAnswer)
    ensures a == BadRequest(ListChatNotFound) <==> ChatRepo.GetById(chats, chatId).None?
    ensures (a == BadRequest(ListUserNotInChat) <==>
               ChatRepo.GetById(chats, chatId).Some? && !ChatRepo.IsParticipant(chatUsers, chatId, viewer))
    ensures (!a.BadRequest? ==>
               ChatRepo.GetById(chats, chatId).Some? && ChatRepo.IsParticipant(chatUsers, chatId, viewer))
    ensures a.Raised? && limit < 0 ==> a.fault == NegativeLimit
    ensures (a.Raised? && 0 <= limit ==>
               var ms := MessageRepo.GetChatMessages(rows, chatId, lastOrderId, limit).value;
               exists k :: (0 <= k < |ms| && MessageHelpers.ResponseFor(users, chats, rows, ms[k]) == Failure(a.fault)
                            && forall j :: 0 <= j < k ==> MessageHelpers.ResponseFor(users, chats, rows, ms[j]).Success?))
    ensures a.Messages? ==> 0 <= limit
    ensures (a.Messages? && 0 <= limit ==>
               var ms := MessageRepo.GetChatMessages(rows, chatId, lastOrderId, limit).value;
               && |a.messages| == |ms|
               && forall k :: 0 <= k < |ms| ==>
                    MessageHelpers.ResponseFor(users, chats, rows, ms[k]) == Success(a.messages[k]))
    ensures (!a.BadRequest? && 0 <= limit ==>
               var ms := MessageRepo.GetChatMessages(rows, chatId, lastOrderId, limit).value;
               (a.Messages? <==> forall k :: 0 <= k < |ms| ==> MessageHelpers.ResponseFor(users, chats, rows, ms[k]).Success?))
  {
    if ChatRepo.GetById(chats, chatId).None? {
      return BadRequest(ListChatNotFound);
    }
    if viewer !in ChatRepo.GetChatParticipantUsers(chatUsers, chatId) {
      return BadRequest(ListUserNotInChat);
    }
    var list := MessageService.GetChatMessagesList(users, chats, rows, chatId, limit, lastOrderId);
    if list.Failure? {
      return Raised(list.error);
    }
    return Messages(list.value);
  }
}
