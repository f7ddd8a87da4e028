/**
 * rchat/services/message.py: `MessageService`, whose message list asks
 * its own `get_message_sender` for every sender, forwarded ones
 * included, and whose two membership questions go to the chat table.
 * Its `get_message_sender` is the same code as the one in
 * rchat/views/message/helpers.py and is modelled once, as
 * `MessageHelpers.GetMessageSender`.
 */
module MessageService {
  import opened Wrappers
  import opened Schemas
  import opened MessageModels
  import MessageRepo
  import ChatRepo
  import opened MessageHelpers

  /**
   * `get_chat_messages_list`: the fetched page, then one entry for it per
   * message (`Entries`); a negative limit is refused by the query.
   */
  method GetChatMessagesList(users: map<UserId, User>, chats: seq<Chat>, rows: seq<MessageRepo.MessageRow>,
                             chatId: ChatId, limit: int, lastOrderId: int)
    returns (r: Result<seq<MessageResponse>, Fault>)
    ensures limit < 0 ==> r == Failure(NegativeLimit)
    ensures (0 <= limit && r.Success? ==>
              var ms := MessageRepo.GetChatMessages(rows, chatId, lastOrderId, limit).value;
              && |r.value| == |ms|
              && forall k :: 0 <= k < |ms| ==> ResponseFor(users, chats, rows, ms[k]) == Success(r.value[k]))
    ensures (0 <= limit && r.Failure? ==>
              var ms := MessageRepo.GetChatMessages(rows, chatId, lastOrderId, limit).value;
              exists k :: (0 <= k < |ms| && ResponseFor(users, chats, rows, ms[k]) == Failure(r.error)
                           && forall j :: 0 <= j < k ==> ResponseFor(users, chats, rows, ms[j]).Success?))
  {
    var fetched := MessageRepo.GetChatMessages(rows, chatId, lastOrderId, limit);
    if fetched.Failure? {
      return Failure(fetched.error);
    }
    r := Entries(users, chats, rows, fetched.value);
  }

  /**
   * The loop of `get_chat_messages_list`: one entry per message, in
   * order, or the fault of the first message that has none.
   */
  method Entries(users: map<UserId, User>, chats: seq<Chat>, rows: seq<MessageRepo.MessageRow>, ms: seq<Message>)
    returns (r: Result<seq<MessageResponse>, Fault>)
    ensures (r.Success? ==>
              && |r.value| == |ms|
              && forall k :: 0 <= k < |ms| ==> ResponseFor(users, chats, rows, ms[k]) == Success(r.value[k]))
    ensures (r.Failure? ==>
              exists k :: (0 <= k < |ms| && ResponseFor(users, chats, rows, ms[k]) == Failure(r.error)
                           && forall j :: 0 <= j < k ==> ResponseFor(users, chats, rows, ms[j]).Success?))
  {
    var out: seq<MessageResponse> := [];
    var i := 0;
    while i < |ms|
      invariant 0 <= i <= |ms|
      invariant |out| == i
      invariant forall k :: 0 <= k < i ==> ResponseFor(users, chats, rows, ms[k]) == Success(out[k])
    {
      var entry := ResponseFor(users, chats, rows, ms[i]);
      if entry.Failure? {
        return Failure(entry.error);
      }
      out := out + [entry.value];
      i := i + 1;
    }
    return Success(out);
  }

  /**
   * A complete message list shows the page in creation order: every entry
   * is of the requested chat, keeps its message's id and time, and the
   * times ascend.
   */
  lemma {:induction false} ListFollowsPage(users: map<UserId, User>, chats: seq<Chat>,
                                           rows: seq<MessageRepo.MessageRow>, chatId: ChatId, lastOrderId: int,
                                           limit: int, out: seq<MessageResponse>)
    requires 0 <= limit
    requires |out| == |MessageRepo.GetChatMessages(rows, chatId, lastOrderId, limit).value|
    requires (forall k :: 0 <= k < |out| ==>
                ResponseFor(users, chats, rows, MessageRepo.GetChatMessages(rows, chatId, lastOrderId, limit).value[k])
                  == Success(out[k]))
    ensures (forall k :: 0 <= k < |out| ==>
               && out[k].chatId == chatId
               && out[k].id == MessageRepo.GetChatMessages(rows, chatId, lastOrderId, limit).value[k].id)
    ensures forall j, k :: 0 <= j < k < |out| ==> out[j].createdAt <= out[k].createdAt
  {
    var ms := MessageRepo.GetChatMessages(rows, chatId, lastOrderId, limit).value;
    MessageRepo.GetChatMessagesPage(rows, chatId, lastOrderId, limit);
    MessageRepo.GetChatMessagesEarliest(rows, chatId, lastOrderId, limit);
    forall k | 0 <= k < |out|
      ensures out[k].chatId == ms[k].chatId && out[k].id == ms[k].id && out[k].createdAt == ms[k].createdTimestamp
    {
      assert ResponseFor(users, chats, rows, ms[k]).Success?;
    }
  }

  /** `is_chat_exist`: the chat table has a row with the id. */
  function IsChatExist(chats: seq<Chat>, chatId: ChatId): (b: bool)
    ensures b <==> exists i :: 0 <= i < |chats| && chats[i].id == chatId
  {
    ChatRepo.GetById(chats, chatId).Some?
  }

  /** `is_user_chat_participant`: the user is among the chat's participants. */
  function IsUserChatParticipant(chatUsers: seq<ChatUser>, userId: UserId, chatId: ChatId): (b: bool)
    ensures b <==> exists row :: row in chatUsers && row.chatId == chatId && row.userId == userId
  {
    userId in ChatRepo.GetChatParticipantUsers(chatUsers, chatId)
  }
}
