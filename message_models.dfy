/**
 * The request and response models of the message and chat views
 * (rchat/views/message/models.py, rchat/views/chat/models.py) and the
 * status codes the handlers report.
 */
module MessageModels {
  import opened Wrappers
  import opened Schemas

  /** The body of a `_new_message_` event; every field is optional except `is_silent`. */
  datatype CreateMessageBody = CreateMessageBody(
    chatId: Option<ChatId>,
    otherUserPublicId: Option<string>,
    messageText: Option<string>,
    replyToMessageId: Option<MessageId>,
    forwardedMessageId: Option<MessageId>,
    isSilent: bool)

  /** The body of a `_read_message_` event. */
  datatype ReadMessageBody = ReadMessageBody(chatId: ChatId, messageId: MessageId)

  /** What every participant is told when a message has been read. */
  datatype ReadMessageResponse = ReadMessageResponse(chatId: ChatId, messageId: MessageId, readByUser: UserId)

  /** The author of a message: a user (no chat id) or a chat (no user id). */
  datatype MessageSender = MessageSender(
    userId: Option<UserId>,
    chatId: Option<ChatId>,
    name: string,
    avatarPhotoUrl: Option<string>)

  /** A forwarded or replied-to message as shown inside another one. */
  datatype ForeignMessage = ForeignMessage(
    id: MessageId,
    messageType: MessageType,
    messageText: Option<string>,
    sender: MessageSender)

  /** One entry of `/message/list`. */
  datatype MessageResponse = MessageResponse(
    id: MessageId,
    messageType: MessageType,
    chatId: ChatId,
    sender: MessageSender,
    messageText: Option<string>,
    audioMsgFileLink: Option<MediaId>,
    videoMsgFileLink: Option<MediaId>,
    replyToMessage: Option<ForeignMessage>,
    forwardedMessage: Option<ForeignMessage>,
    isSilent: bool,
    lastEditedAt: Option<Timestamp>,
    createdAt: Timestamp,
    readByUsers: seq<UserId>)

  /** The last message shown on a chat-list item. */
  datatype LastChatMessage = LastChatMessage(
    id: MessageId,
    messageType: MessageType,
    messageText: Option<string>,
    createdAt: Timestamp,
    sender: MessageSender)

  /** One entry of `/chat/list`. */
  datatype ChatListItem = ChatListItem(
    id: ChatId,
    name: string,
    chatType: ChatType,
    lastMessage: Option<LastChatMessage>,
    avatarPhotoUrl: Option<string>)

  /** Why a new message was refused. */
  datatype NewMessageStatus = ChatNotFound | CannotReplyThisMessage | CannotForwardThisMessage

  /** Why a read receipt was refused. */
  datatype ReadMessageStatus =
    | MessageNotFound
    | UserNotInChat
    | UserCannotReadOwnMessage
    | UserAlreadyReadTheMessage

  /** Why `/message/list` answered 400. */
  datatype ChatMessagesStatus = ListChatNotFound | ListUserNotInChat
}
