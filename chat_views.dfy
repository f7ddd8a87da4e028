/**
 * rchat/views/chat/views.py: `/chat/list`, the viewer's chats in the
 * order of the chat query, each with its name, its last message and
 * an avatar.
 *
 * The view imports a `get_chat_name` that rchat/views/chat/helpers.py
 * does not define; the helper there is `get_chat_name_and_avatar`, and
 * the item's name is the name half of its answer.
 */
module ChatViews {
  import opened Wrappers
  import opened Schemas
  import opened MessageModels
  import Media
  import MessageRepo
  import ChatRepo
  import ChatHelpers
  import MessageHelpers

  /**
   * One chat-list item: the chat's id and type, the per-viewer name, the
   * chat's last message with its sender, and the avatar of the chat
   * itself (for private chats too). A fault in the name or in the
   * sender ends the request.
   */
  function ItemFor(users: map<UserId, User>, chats: seq<Chat>, chatUsers: seq<ChatUser>,
                   rows: seq<MessageRepo.MessageRow>, viewer: UserId, chat: Chat): (r: Result<ChatListItem, Fault>)
    ensures (r.Failure? <==>
               || ChatHelpers.GetChatNameAndAvatar(users, chatUsers, chat, viewer).Failure?
               || (&& MessageRepo.GetLastChatMessage(rows, chat.id).Some?
                   && MessageHelpers.GetMessageSender(users, chats, MessageRepo.GetLastChatMessage(rows, chat.id).value).Failure?))
    ensures (r.Success? ==>
               && r.value.id == chat.id
               && r.value.chatType == chat.chatType
               && r.value.name == ChatHelpers.GetChatNameAndAvatar(users, chatUsers, chat, viewer).value.0
               && (r.value.avatarPhotoUrl.None? <==> chat.avatarPhotoId.None?))
    ensures (r.Success? ==>
               (r.value.lastMessage.None? <==> forall i :: 0 <= i < |rows| ==> rows[i].message.chatId != chat.id))
    ensures (r.Success? ==>
               (r.value.lastMessage.None? <==> MessageRepo.MaxTimestamp(rows, chat.id).None?)
               && (r.value.lastMessage.Some? ==>
                     MessageRepo.MaxTimestamp(rows, chat.id) == Some(r.value.lastMessage.value.createdAt)))
    ensures (r.Success? && r.value.lastMessage.Some? ==>
               var last := MessageRepo.GetLastChatMessage(rows, chat.id).value;
               && last.chatId == chat.id
               && r.value.lastMessage.value.id == last.id
               && r.value.lastMessage.value.messageType == last.messageType
               && r.value.lastMessage.value.messageText == last.messageText
               && r.value.lastMessage.value.createdAt == last.createdTimestamp
               && Success(r.value.lastMessage.value.sender) == MessageHelpers.GetMessageSender(users, chats, last)
               && (forall i :: 0 <= i < |rows| && rows[i].message.chatId == chat.id ==>
                     rows[i].message.createdTimestamp <= r.value.lastMessage.value.createdAt))
  {
    var last := MessageRepo.GetLastChatMessage(rows, chat.id);
    var avatar := Media.AvatarUrl(chat.avatarPhotoId);
    var name := ChatHelpers.GetChatNameAndAvatar(users, chatUsers, chat, viewer);
    if name.Failure? then Failure(name.error)
    else if last.None? then Success(ChatListItem(chat.id, name.value.0, chat.chatType, None, avatar))
    else
      var sender := MessageHelpers.GetMessageSender(users, chats, last.value);
      if sender.Failure? then Failure(sender.error)
      else
        var shown := LastChatMessage(last.value.id, last.value.messageType, last.value.messageText,
                                     last.value.createdTimestamp, sender.value);
        Success(ChatListItem(chat.id, name.value.0, chat.chatType, Some(shown), avatar))
  }

  /**
   * `get_chat_list`: one item per chat of the viewer, in the order of
   * `get_user_chats`, or the fault of the first chat that has no item.
   */
  method GetChatList(users: map<UserId, User>, chats: seq<Chat>, chatUsers: seq<ChatUser>,
                     rows: seq<MessageRepo.MessageRow>, viewer: UserId)
    returns (r: Result<seq<ChatListItem>, Fault>)
    ensures (r.Success? ==>
               var cs := ChatRepo.GetUserChats(chats, chatUsers, rows, viewer);
               && |r.value| == |cs|
               && forall k :: 0 <= k < |cs| ==> ItemFor(users, chats, chatUsers, rows, viewer, cs[k]) == Success(r.value[k]))
    ensures (r.Failure? ==>
               var cs := ChatRepo.GetUserChats(chats, chatUsers, rows, viewer);
               exists k :: (0 <= k < |cs| && ItemFor(users, chats, chatUsers, rows, viewer, cs[k]) == Failure(r.error)
                            && forall j :: 0 <= j < k ==> ItemFor(users, chats, chatUsers, rows, viewer, cs[j]).Success?))
  {
    var cs := ChatRepo.GetUserChats(chats, chatUsers, rows, viewer);
    var out: seq<ChatListItem> := [];
    var i := 0;
    while i < |cs|
      invariant 0 <= i <= |cs|
      invariant |out| == i
      invariant forall k :: 0 <= k < i ==> ItemFor(users, chats, chatUsers, rows, viewer, cs[k]) == Success(out[k])
    {
      var item := ItemFor(users, chats, chatUsers, rows, viewer, cs[i]);
      if item.Failure? {
        return Failure(item.error);
      }
      out := out + [item.value];
      i := i + 1;
    }
    return Success(out);
  }

  /**
   * A complete chat list shows exactly the viewer's chats: the item at
   * each place is that of a chat the viewer takes part in, and every such
   * chat has an item.
   */
  lemma {:induction false} ChatListShowsOwnChats(users: map<UserId, User>, chats: seq<Chat>, chatUsers: seq<ChatUser>,
                                                 rows: seq<MessageRepo.MessageRow>, viewer: UserId,
                                                 cs: seq<Chat>, out: seq<ChatListItem>)
    requires cs == ChatRepo.GetUserChats(chats, chatUsers, rows, viewer)
    requires |out| == |cs|
    requires forall k :: 0 <= k < |cs| ==> ItemFor(users, chats, chatUsers, rows, viewer, cs[k]) == Success(out[k])
    ensures (forall k :: 0 <= k < |out| ==>
               out[k].id == cs[k].id && cs[k] in chats && ChatRepo.IsParticipant(chatUsers, cs[k].id, viewer))
    ensures (forall c :: c in chats && ChatRepo.IsParticipant(chatUsers, c.id, viewer) ==>
               exists k :: 0 <= k < |out| && out[k].id == c.id)
  {
    ItemsKeepChats(users, chats, chatUsers, rows, viewer, cs, out);
    OwnChatsListed(chats, chatUsers, rows, viewer, cs, out);
  }

  /** Items carrying the ids of the user's chats, in place, list exactly the user's chats. */
  lemma OwnChatsListed(chats: seq<Chat>, chatUsers: seq<ChatUser>, rows: seq<MessageRepo.MessageRow>,
                       viewer: UserId, cs: seq<Chat>, out: seq<ChatListItem>)
    requires cs == ChatRepo.GetUserChats(chats, chatUsers, rows, viewer)
    requires |out| == |cs|
    requires forall k :: 0 <= k < |cs| ==> out[k].id == cs[k].id
    ensures (forall k :: 0 <= k < |out| ==>
               out[k].id == cs[k].id && cs[k] in chats && ChatRepo.IsParticipant(chatUsers, cs[k].id, viewer))
    ensures (forall c :: c in chats && ChatRepo.IsParticipant(chatUsers, c.id, viewer) ==>
               exists k :: 0 <= k < |out| && out[k].id == c.id)
  {
    ChatRepo.UserChatsMembers(chats, chatUsers, rows, viewer);
    forall k | 0 <= k < |out| ensures cs[k] in chats && ChatRepo.IsParticipant(chatUsers, cs[k].id, viewer) {
      assert cs[k] in cs;
    }
    forall c | c in chats && ChatRepo.IsParticipant(chatUsers, c.id, viewer)
      ensures exists k :: 0 <= k < |out| && out[k].id == c.id
    {
      assert c in cs;
      var k :| 0 <= k < |cs| && cs[k] == c;
      assert out[k].id == c.id;
    }
  }

  /** What an item keeps of its chat: id, type, and the time of the chat's newest message. */
  lemma ItemShowsChat(users: map<UserId, User>, chats: seq<Chat>, chatUsers: seq<ChatUser>,
                      rows: seq<MessageRepo.MessageRow>, viewer: UserId, chat: Chat, item: ChatListItem)
    requires ItemFor(users, chats, chatUsers, rows, viewer, chat) == Success(item)
    ensures item.id == chat.id && item.chatType == chat.chatType
    ensures item.lastMessage.None? <==> MessageRepo.MaxTimestamp(rows, chat.id).None?
    ensures item.lastMessage.Some? ==> MessageRepo.MaxTimestamp(rows, chat.id) == Some(item.lastMessage.value.createdAt)
  {
  }

  /** Each item of a complete list carries the id of its chat. */
  lemma ItemsKeepChats(users: map<UserId, User>, chats: seq<Chat>, chatUsers: seq<ChatUser>,
                       rows: seq<MessageRepo.MessageRow>, viewer: UserId, cs: seq<Chat>, out: seq<ChatListItem>)
    requires |out| == |cs|
    requires forall k :: 0 <= k < |cs| ==> ItemFor(users, chats, chatUsers, rows, viewer, cs[k]) == Success(out[k])
    ensures forall k :: 0 <= k < |cs| ==> out[k].id == cs[k].id && out[k].chatType == cs[k].chatType
  {
    forall k | 0 <= k < |cs| ensures out[k].id == cs[k].id && out[k].chatType == cs[k].chatType {
      ItemShowsChat(users, chats, chatUsers, rows, viewer, cs[k], out[k]);
    }
  }

  /**
   * A complete chat list puts the chats without messages first and the
   * others by their last message, newest first.
   */
  lemma {:induction false} ChatListNewestFirst(users: map<UserId, User>, chats: seq<Chat>, chatUsers: seq<ChatUser>,
                                               rows: seq<MessageRepo.MessageRow>, viewer: UserId,
                                               cs: seq<Chat>, out: seq<ChatListItem>)
    requires cs == ChatRepo.GetUserChats(chats, chatUsers, rows, viewer)
    requires |out| == |cs|
    requires forall k :: 0 <= k < |cs| ==> ItemFor(users, chats, chatUsers, rows, viewer, cs[k]) == Success(out[k])
    ensures (forall i, j :: 0 <= i < j < |out| ==>
               || out[i].lastMessage.None?
               || (out[j].lastMessage.Some? && out[j].lastMessage.value.createdAt <= out[i].lastMessage.value.createdAt))
  {
    ChatRepo.UserChatsOrdered(chats, chatUsers, rows, viewer);
    forall i, j | 0 <= i < j < |out|
      ensures (|| out[i].lastMessage.None?
               || (out[j].lastMessage.Some? && out[j].lastMessage.value.createdAt <= out[i].lastMessage.value.createdAt))
    {
      ItemShowsChat(users, chats, chatUsers, rows, viewer, cs[i], out[i]);
      ItemShowsChat(users, chats, chatUsers, rows, viewer, cs[j], out[j]);
      assert ChatRepo.UserChatsOrder(rows, cs[i], cs[j]);
    }
  }
}
