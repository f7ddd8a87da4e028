/** The stored entities of the chat service (the rchat/schemas modules) and the runtime faults of its Python code. */
module Schemas {
  import opened Wrappers

  // UUIDs are opaque identifiers; timestamps are seconds.
  type UserId = int
  type ChatId = int
  type MessageId = int
  type MediaId = int
  type Timestamp = int

  datatype ChatType = Private | Group | Channel

  datatype Chat = Chat(
    id: ChatId,
    chatType: ChatType,
    name: Option<string>,
    avatarPhotoId: Option<MediaId>,
    description: Option<string>,
    createdTimestamp: Timestamp)

  /** What `create_chat` inserts; the store adds the creation time. */
  datatype ChatCreate = ChatCreate(
    id: ChatId,
    chatType: ChatType,
    name: Option<string>,
    avatarPhotoId: Option<MediaId>,
    description: Option<string>)

  datatype UserChatRole = Owner | Admin | Member | Observer

  /** A row of the `chat_user` table. */
  datatype ChatUser = ChatUser(
    chatId: ChatId,
    userId: UserId,
    addedByUser: Option<UserId>,
    role: UserChatRole,
    lastAvailableMessage: Option<MessageId>)

  datatype MessageType = Text | Audio | Video

  datatype Message = Message(
    id: MessageId,
    messageType: MessageType,
    chatId: ChatId,
    senderUserId: Option<UserId>,
    senderChatId: Option<ChatId>,
    messageText: Option<string>,
    audioMsgFileId: Option<MediaId>,
    videoMsgFileId: Option<MediaId>,
    replyToMessage: Option<MessageId>,
    forwardedMessage: Option<MessageId>,
    isSilent: bool,
    lastEditedAt: Option<Timestamp>,
    createdTimestamp: Timestamp)

  /** What `create_message` inserts; the store adds the creation time and the order id. */
  datatype MessageCreate = MessageCreate(
    id: MessageId,
    messageType: MessageType,
    chatId: ChatId,
    senderUserId: Option<UserId>,
    messageText: Option<string>,
    replyToMessageId: Option<MessageId>,
    forwardedMessageId: Option<MessageId>,
    isSilent: bool)

  datatype User = User(
    id: UserId,
    publicId: string,
    firstName: string,
    lastName: Option<string>,
    avatarPhotoId: Option<MediaId>)

  /** Exceptions the Python code raises on the paths modelled here. */
  datatype Fault =
    | NoneHasNoAttribute      // a lookup returned None and the code read a field of it
    | ParticipantIndexError   // `chat_participant[0]` or `[1]` out of range
    | ChatNameAssertion       // `assert chat.name` failed
    | SenderNameInvalid       // pydantic refuses `MessageSender(name=None)`
    | UniqueViolation         // insert of an id already in the table
    | NegativeLimit           // Postgres refuses `LIMIT` below zero
    | StateHasNoAttribute     // `app_state.get_message_sender` does not exist
}

/** rchat/repository/media.py: media links are a stub. */
module Media {
  import opened Wrappers
  import opened Schemas

  /** `get_media_url` returns the empty string for every id. */
  function MediaUrl(id: MediaId): string
  {
    ""
  }

  /** The `get_media_url(x) if x else None` pattern used for every avatar. */
  function AvatarUrl(photo: Option<MediaId>): (url: Option<string>)
    ensures url.None? <==> photo.None?
  {
    if photo.Some? then Some(MediaUrl(photo.value)) else None
  }
}
